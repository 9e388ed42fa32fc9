/**
 * The text of a session intent: printed by the SDK, parsed by the session manager. Text is
 * a sequence of characters; base58, RFC 3339 times and UTF-8 are the codec's business.
 */
module IntentText {
  import opened Common
  import opened KeyValue
  import opened Amounts
  import opened IntentTypes
  import Sessions

  /** Readers of the field types that are not modelled further, and the base58 printer. */
  datatype Codec = Codec(time: string -> Option<I64>, key: string -> Option<Pubkey>, base58: Pubkey -> string)

  datatype Version = Version(major: byte, minor: byte)

  datatype Message = Message(
    version: Version, chainId: string, domain: string, expires: I64, sessionKey: Pubkey,
    tokens: TokenLimits, extra: map<string, string>)

  const OPENING := "Fogo Sessions:\nSigning this intent will"

  const PREFIX :=
    OPENING + " allow this app to interact with your on-chain balances. " +
    "Please make sure you trust this app and the domain in the message matches " +
    "the domain of the current web application.\n"
  const UNLIMITED := "this app may spend any amount of any token"
  const TOKENLESS := "this app may not spend any tokens"
  const RESERVED := ["version", "chain_id", "domain", "expires", "session_key", "tokens"]

  // ---------- parsing ----------

  function IntegerU8(s: string): Parse<byte>
  {
    var (digits, b) :- Take1(IsDigit, s);
    if AllDigits(digits) && Value(digits) <= 255 then Accept(Value(digits), b) else Reject
  }

  /** What follows the minor version is ignored. */
  function ParseVersion(s: string): Option<Version>
  {
    var major := IntegerU8(s);
    if major.Reject? || Tag(".", major.rest).Reject? then None
    else
      var minor := IntegerU8(Tag(".", major.rest).rest);
      if minor.Reject? then None else Some(Version(major.value, minor.value))
  }

  function Classify(codec: Codec, name: string): SymbolOrMint
  {
    if codec.key(name).Some? then Mint(codec.key(name).value) else Symbol(name)
  }

  predicate InName(c: char) { IsAlphanumeric(c) || c == '.' }

  function Name(s: string): Parse<string> { Take1(InName, s) }

  /** One dash line of the token list. */
  function ParseLimit(codec: Codec, s: string): (p: Parse<TokenLimit>)
    ensures p.Accept? ==> |p.rest| < |s|
  {
    var (_, b) :- Tag("-", s);
    var (pair, b) :- KeyValuePair(Name, b);
    Accept(TokenLimit(Classify(codec, pair.0), pair.1), b)
  }

  /** As many dash lines as parse; what follows them is ignored. */
  function ParseLimits(codec: Codec, s: string): seq<TokenLimit>
    decreases |s|
  {
    var first := ParseLimit(codec, s);
    if first.Reject? then [] else [first.value] + ParseLimits(codec, first.rest)
  }

  function ParseTokens(codec: Codec, s: string): Option<TokenLimits>
  {
    if s == UNLIMITED then Some(AnyTokens)
    else if s == TOKENLESS then Some(SpecificLimits([]))
    else if ParseLimits(codec, s) == [] then None
    else Some(SpecificLimits(ParseLimits(codec, s)))
  }

  /** All the trailing key/value pairs. */
  function ParseExtras(s: string): (seq<Field>, string)
    decreases |s|
  {
    var pair := KeyValuePair(AnyKey, s);
    if pair.Reject? then ([], s)
    else
      var (fields, rest) := ParseExtras(pair.rest);
      ([Field(pair.value.0, pair.value.1)] + fields, rest)
  }

  /** Reserved and repeated keys are refused. */
  function FoldExtras(fields: seq<Field>, m: map<string, string>): Option<map<string, string>>
  {
    if fields == [] then Some(m)
    else if fields[0].key in RESERVED || fields[0].key in m then None
    else FoldExtras(fields[1..], m[fields[0].key := fields[0].value])
  }

  function TaggedValue(key: string, s: string): Parse<string>
  {
    var (pair, b) :- KeyValuePair(TagParser(key), s);
    Accept(pair.1, b)
  }

  /** The six leading fields, as text. */
  datatype Body =
    Body(version: string, chainId: string, domain: string, expires: string, sessionKey: string, tokens: string)

  function ParseBody(s: string): Parse<Body>
  {
    var (version, b) :- TaggedValue("version", s);
    var (chainId, b) :- TaggedValue("chain_id", b);
    var (domain, b) :- TaggedValue("domain", b);
    var (expires, b) :- TaggedValue("expires", b);
    var (sessionKey, b) :- TaggedValue("session_key", b);
    var (tokens, b) :- TaggedValue("tokens", b);
    Accept(Body(version, chainId, domain, expires, sessionKey, tokens), b)
  }

  function Assemble(codec: Codec, body: Body, extra: map<string, string>): Option<Message>
  {
    var version := ParseVersion(body.version);
    if version.None? || version.value.major != Sessions.MAJOR then None
    else if codec.time(body.expires).None? || codec.key(body.sessionKey).None? then None
    else if ParseTokens(codec, body.tokens).None? then None
    else Some(Message(version.value, body.chainId, body.domain, codec.time(body.expires).value,
                      codec.key(body.sessionKey).value, ParseTokens(codec, body.tokens).value, extra))
  }

  /** The fields, the extras and the end of the input. */
  function ParseFields(codec: Codec, s: string): Option<Message>
  {
    var body := ParseBody(s);
    if body.Reject? then None
    else
      var (fields, rest) := ParseExtras(body.rest);
      var extra := FoldExtras(fields, map[]);
      if extra.None? || rest != "" then None else Assemble(codec, body.value, extra.value)
  }

  function ParseMessage(codec: Codec, s: string): Option<Message>
  {
    var prefix := Tag(PREFIX, s);
    if prefix.Reject? || LineEnding(prefix.rest).Reject? then None
    else ParseFields(codec, LineEnding(prefix.rest).rest)
  }

  // ---------- printing ----------

  datatype TokenInfo = TokenInfo(token: SymbolOrMint, amount: nat, decimals: nat)

  function NameOf(codec: Codec, t: SymbolOrMint): string { if t.Symbol? then t.symbol else codec.base58(t.mint) }

  function LimitFields(codec: Codec, ts: seq<TokenInfo>): (fields: seq<Field>)
    ensures |fields| == |ts|
  {
    seq(|ts|, i requires 0 <= i < |ts| =>
      Field(NameOf(codec, ts[i].token), AmountToString(ts[i].amount, ts[i].decimals)))
  }

  /** One dash line per limit, each after a line break. */
  function PrintLimits(fields: seq<Field>): string
  {
    if fields == [] then "" else "\n-" + fields[0].key + ": " + fields[0].value + PrintLimits(fields[1..])
  }

  /** `None` stands for unlimited tokens. */
  function SerializeTokenList(codec: Codec, ts: Option<seq<TokenInfo>>): string
  {
    if ts.None? then UNLIMITED else if ts.value == [] then TOKENLESS else PrintLimits(LimitFields(codec, ts.value))
  }

  predicate IsLower(c: char) { 'a' <= c <= 'z' }

  predicate IsLowerOrDigit(c: char) { IsLower(c) || IsDigit(c) }

  /** Zero or more groups of an underscore and lower-case letters or digits. */
  predicate SnakeGroups(s: string)
    decreases |s|
  {
    s == "" || (s[0] == '_' && var n := SpanLength(s[1..], IsLowerOrDigit); n > 0 && SnakeGroups(s[1 + n..]))
  }

  predicate SnakeCase(s: string)
  {
    var n := SpanLength(s, IsLower);
    n > 0 && SnakeGroups(s[n..])
  }

  /** What `serializeExtra` lets through. The keys of a JavaScript object are distinct. */
  predicate ExtraAllowed(extra: seq<Field>)
  {
    && (forall i :: 0 <= i < |extra| ==> SnakeCase(extra[i].key) && '\n' !in extra[i].value)
    && (forall i, j :: 0 <= i < j < |extra| ==> extra[i].key != extra[j].key)
  }

  function BodyFields(body: Body): seq<Field>
  {
    [Field("version", body.version), Field("chain_id", body.chainId), Field("domain", body.domain),
     Field("expires", body.expires), Field("session_key", body.sessionKey), Field("tokens", body.tokens)]
  }

  /** The message `buildIntentInstruction` hands to the wallet; an absent `extra` prints as the empty string. */
  function BuildText(body: Body, extra: seq<Field>): string
  {
    PREFIX + "\n" + SerializeKV(BodyFields(body)) + "\n" + SerializeKV(extra)
  }

  // ---------- the token list ----------

  predicate InNames(s: string) { s != "" && forall i :: 0 <= i < |s| ==> InName(s[i]) }

  /** The token is printed by a name the parser takes as one word, and a mint's name reads back as that mint. */
  predicate Printable(codec: Codec, t: SymbolOrMint)
  {
    InNames(NameOf(codec, t)) && (t.Mint? ==> codec.key(codec.base58(t.mint)) == Some(t.mint))
  }

  /** A symbol that happens to read as a key is taken for that mint. */
  predicate Unambiguous(codec: Codec, t: SymbolOrMint) { t.Symbol? ==> codec.key(t.symbol).None? }

  lemma ClassifyInverts(codec: Codec, t: SymbolOrMint)
    requires Printable(codec, t)
    ensures Classify(codec, NameOf(codec, t)) == t <==> Unambiguous(codec, t)
  {
  }

  function Intended(ts: seq<TokenInfo>): (limits: seq<TokenLimit>)
    ensures |limits| == |ts|
  {
    seq(|ts|, i requires 0 <= i < |ts| => TokenLimit(ts[i].token, AmountToString(ts[i].amount, ts[i].decimals)))
  }

  lemma AmountHasNoBreak(amount: nat, decimals: nat)
    ensures NoBreak(AmountToString(amount, decimals))
  {
    PrintedForm(amount, decimals);
    var s := AmountToString(amount, decimals);
    var n := SpanLength(s, NotDot);
    forall i | 0 <= i < |s| ensures InLine(s[i])
    {
      if i < n {
        assert IsDigit(s[..n][i]);
      } else if i > n {
        assert IsDigit(s[n + 1..][i - n - 1]);
      }
    }
  }

  /** Fields whose keys are names and whose values stay on their line. */
  predicate NameFields(fields: seq<Field>)
  {
    forall i :: 0 <= i < |fields| ==> InNames(fields[i].key) && NoBreak(fields[i].value)
  }

  lemma LimitFieldsAreNames(codec: Codec, ts: seq<TokenInfo>)
    requires forall i :: 0 <= i < |ts| ==> Printable(codec, ts[i].token)
    ensures NameFields(LimitFields(codec, ts))
  {
    forall i | 0 <= i < |ts| ensures NoBreak(AmountToString(ts[i].amount, ts[i].decimals))
    {
      AmountHasNoBreak(ts[i].amount, ts[i].decimals);
    }
  }

  /** The dash lines without the line break that precedes them, ended by one. */
  function DashLines(fields: seq<Field>): string
  {
    if fields == [] then "" else "-" + (PrintField(fields[0]) + ("\n" + DashLines(fields[1..])))
  }

  function Limits(codec: Codec, fields: seq<Field>): seq<TokenLimit>
  {
    if fields == [] then []
    else [TokenLimit(Classify(codec, fields[0].key), fields[0].value)] + Limits(codec, fields[1..])
  }

  lemma NameReads(name: string)
    requires InNames(name)
    ensures ReadsKey(Name, name, name)
  {
    ReadsTake1(InName, name);
    forall tail: string ensures Name(name + (":" + tail)) == Accept(name, ":" + tail)
    {
      assert ((s: string) => Take1(InName, s))(name + (":" + tail)) == Accept(name, ":" + tail);
    }
  }

  lemma LimitInverse(codec: Codec, f: Field, rest: string)
    requires InNames(f.key) && NoBreak(f.value)
    ensures ParseLimit(codec, "-" + (PrintField(f) + ("\n" + rest))) ==
            Accept(TokenLimit(Classify(codec, f.key), f.value), rest)
  {
    NameReads(f.key);
    FieldInverse(Name, f.key, f.key, f.value, "\n" + rest, rest);
    TagInverse("-", PrintField(f) + ("\n" + rest));
  }

  lemma {:induction false} LimitsInverse(codec: Codec, fields: seq<Field>)
    requires NameFields(fields)
    ensures ParseLimits(codec, DashLines(fields)) == Limits(codec, fields)
  {
    if fields != [] {
      LimitInverse(codec, fields[0], DashLines(fields[1..]));
      LimitsInverse(codec, fields[1..]);
    }
  }

  /** A dash block ends where a line does not start with a dash. */
  predicate EndsBlock(rest: string) { rest == "" || rest[0] != '-' }

  lemma DashLineInverse(line: string, rest: string)
    requires NoBreak(line)
    ensures DashLine("-" + (line + ("\n" + rest))) == Accept(line, rest)
  {
    TagInverse("-", line + ("\n" + rest));
    NotLineEndingStops(line, "\n" + rest, rest);
    LineEnds("\n" + rest, rest);
  }

  lemma FieldOnLine(f: Field)
    requires InNames(f.key) && NoBreak(f.value)
    ensures NoBreak(PrintField(f))
  {
  }

  lemma Regroup(line: string, more: string, rest: string)
    ensures ("-" + (line + ("\n" + more))) + rest == "-" + (line + ("\n" + (more + rest)))
  {
  }

  lemma {:induction false} BlockInverse(fields: seq<Field>, rest: string)
    requires NameFields(fields) && EndsBlock(rest)
    ensures DashBlock(DashLines(fields) + rest) == |DashLines(fields)|
  {
    if fields == [] {
      assert DashLines(fields) + rest == rest;
    } else {
      var line, more := PrintField(fields[0]), DashLines(fields[1..]);
      FieldOnLine(fields[0]);
      BlockInverse(fields[1..], rest);
      Regroup(line, more, rest);
      DashLineInverse(line, more + rest);
    }
  }

  lemma Reline(line: string, more: string, lines: string)
    requires more + "\n" == "\n" + lines
    ensures "\n-" + line + more + "\n" == "\n" + ("-" + (line + ("\n" + lines)))
  {
    assert "\n-" + line + more + "\n" == "\n-" + line + (more + "\n");
  }

  lemma {:induction false} PrintedLimits(fields: seq<Field>)
    requires NameFields(fields)
    ensures PrintLimits(fields) + "\n" == "\n" + DashLines(fields)
  {
    if fields != [] {
      var f, more := fields[0], PrintLimits(fields[1..]);
      PrintedLimits(fields[1..]);
      FieldText(f, "");
      assert PrintField(f) == f.key + ": " + f.value;
      assert "\n-" + f.key + ": " + f.value + more == "\n-" + PrintField(f) + more;
      Reline(PrintField(f), more, DashLines(fields[1..]));
    }
  }
}
