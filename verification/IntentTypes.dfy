/** What an intent grants: the part of a signed message that both its parser and the session manager handle. */
module IntentTypes {
  import opened Common

  datatype SymbolOrMint = Symbol(symbol: string) | Mint(mint: Pubkey)

  /** The amount is the decimal text the user signed. */
  datatype TokenLimit = TokenLimit(token: SymbolOrMint, amount: string)

  datatype TokenLimits = SpecificLimits(limits: seq<TokenLimit>) | AnyTokens
}
