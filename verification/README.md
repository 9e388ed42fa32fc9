# Fogo Sessions in Dafny

A model of the parts of Fogo Sessions whose correctness is hardest to see from the code, with
proofs about all inputs, all runs and all interleavings. `dafny verify dfyconfig.toml` checks
the whole project.

## What is modelled

- **Session lifecycle** (`Sessions`, `SessionManager`, `SessionRuns`, `SessionFunds`,
  `SessionEffects`, `SessionExact`, `SessionBytes`). The session manager's three instructions as handlers over
  accounts, token delegations and a clock, and as a transition system in which they interleave
  with payments, other programs, other uses of the token program and the passing of time.
- **Session bytes** (`Borsh`, `SessionLayout`, `SessionLayoutExact`, `Utf8`). The Borsh layout of all four account
  versions, read in full and by the system program's truncated reader.
- **Paymaster constraints** (`Matcher`, `Expansion`, `Constraints`, `Gas`, `Fees`). The greedy
  matcher, its declarative meaning, the templates and the native-wrapping expansion; gas and fee
  arithmetic.
- **Lookup-table cache** (`LookupTables`). Account resolution, and every interleaving of
  concurrent queries, fetches and cache inserts.
- **Intent wire formats** (`KeyValue`, `IntentTypes`, `IntentText`, `IntentRoundTrip`, `TextExact`,
  `Amounts`, `Envelope`, `Ed25519`, `IntentPipeline`). Text, envelope and signature instruction: what the
  SDK writes and what the programs read.
- **Domain registry** (`DomainRegistry`) and **websocket reconnection** (`Reconnect`).

Code that changes state in place is a class or an array method proved against a function of the
old state; the theorems are about that function. In each transition system
`RunGoesOn` says that a run takes its steps one after another, and `OthersAct` what everyone else may do. Solana, SPL and cryptographic calls are
primitives: address derivations, hashes, base58 and time parsing are arbitrary functions passed
in, so nothing is assumed of them beyond what a lemma states.

## Where the code and its promises part ways

- **Greedy matching.** The code's own comment says the matcher is incomplete. `GreedyCompleteExactly`
  says exactly when it is not: a constraint list is matched completely if and only if some required
  constraint accepts no instruction at all, or no instruction is accepted by an optional constraint
  and also by the *next required* one. Overlap between optional constraints does no harm.
- **Native wrapping.** Expanding `requires_wrapped_native_tokens` keeps every alignable transaction,
  but the greedy matcher can lose one (`NativeWrappingCanLose`). For every list, it loses none if and
  only if the list accepts nothing, or the inserted templates steal from no required constraint: no
  run of instructions is taken entirely by the optional constraints up to a required one with the
  templates, and all but its last, which the required constraint accepts, without them
  (`NativeWrappingExact`). For a list that greedy matched completely before, that is: the next required
  constraint accepts no SessionWrap, CreateIdempotent, SyncNative or CloseAccount instruction. Such a
  clash always loses a transaction (`NativeClashLoses`); in a list not matched completely before, a
  transaction can be lost without one (`UnseparatedCanLoseWithoutClash`).
- **Legacy envelopes.** A legacy-wrapped text is taken for a version 0 envelope if and only if its
  thirtieth byte is a format number and the bytes after it read as a signer list and a valid counted
  message that ends the text (`LegacyTextCapturedExactly`).
- **Rent floor.** A session account can be started below its rent minimum, if and only if the session
  key sponsors itself with less than that minimum: the top-up is then a transfer to itself
  (`StartFloorExactly`, `SelfSponsoredStartIsUnderfunded`); along a run nothing else breaks the floor
  (`RentFloorHolds`). The runtime's own rent check, which is not
  part of the program, would be the only thing to stop it.
- **Extras.** `serializeExtra` refuses line feeds only. A carriage return in a value, or a reserved key,
  prints but does not parse back; `ExtrasReadExactly` shows these are the only two failures
  (`ReservedExtraIsLost` and `ReturnInExtraIsLost` are inputs). A token
  symbol that reads as a base58 key comes back as that mint (`TokensReportedExactly`).
- **Gas.** Saturating and exact gas agree on every transaction if and only if the maximum is below
  18,446,744,073,709 lamports (`GasCheckExactly`).
- **Comments.** The comment at services/paymaster/src/constraint/transaction.rs:45 speaks of positions in the
  original list; the code numbers the filtered list, and so does the model.

## Model

| member | source | states |
|---|---|---|
| SessionLayout.RoundTrip | packages/sessions-sdk-rs/src/session/mod.rs:44-266 | any encodable session of any version, followed by any bytes, is read back exactly |
| SessionLayoutExact.DecodesExactly | packages/sessions-sdk-rs/src/session/mod.rs:249-266 | exactly the encodings of encodable sessions, followed by anything, decode, each to its own session |
| SessionLayoutExact.WrongDiscriminator | packages/sessions-sdk-rs/src/session/mod.rs:249-266 | the discriminator error is given exactly for data that only the discriminator keeps from decoding |
| SessionLayoutExact.HeadBytes | packages/sessions-sdk-rs/src/session/mod.rs:44-210 | where discriminator, sponsor, version, state, domain hash, user and expiration stand in the data of each version |
| SessionLayout.TruncatedReaderAgrees | packages/sessions-sdk-rs/src/session/system_program.rs:9-19 | on every byte string holding a session, the truncated layout reads the same sponsor, versions, users, expirations and revocation |
| SessionLayout.SystemProgramCheckAgrees | packages/sessions-sdk-rs/src/session/system_program.rs:21-46 | the system program's check and the token program's check return the same user or the same error on the same bytes, at every time |
| SessionBytes.StoredBytesDecide | packages/sessions-sdk-rs/src/session/mod.rs:318-362 | from the stored bytes either layout passes exactly when the session is live and unrevoked |
| SessionBytes.StaysWellStored | programs/session-manager/src/lib.rs:273-289 | in every run each session account holds a session its bytes determine |
| SessionBytes.RevokedBytesStayDead | packages/sessions-sdk-rs/src/session/system_program.rs:27-45 | in every run the bytes under a revoked key pass no check in either layout, unless restarted with a later expiration |
| SessionManager.Program.ConvertToPendingApprovals | programs/session-manager/src/token/approve.rs:31-95 | the shared account iterator resolves each limit against its own two or three accounts, or fails with the first error |
| SessionManager.Program.ApproveTokens | programs/session-manager/src/token/approve.rs:97-129 | approvals take effect one after another, or none does |
| SessionManager.Program.ConvertToPendingRevocations | programs/session-manager/src/token/revoke.rs:12-47 | the accounts given, in mint order, that are delegated to the session |
| SessionManager.Program.RevokeTokens | programs/session-manager/src/token/revoke.rs:49-70 | revocations take effect one after another, or none does |
| SessionManager.Program.Start | programs/session-manager/src/lib.rs:34-129 | the handler does what the start function specifies, with no change and the first error otherwise |
| SessionManager.Program.RevokeKey | programs/session-manager/src/lib.rs:131-167 | the handler does what the revocation function specifies, with no change otherwise |
| SessionManager.Program.Close | programs/session-manager/src/lib.rs:169-224 | the handler does what the close function specifies, with no change otherwise |
| SessionRuns.StartStores | programs/session-manager/src/lib.rs:75-128 | a start succeeds only on a key without a session, stores an unrevoked session with the intent's expiration and touches no other session |
| SessionRuns.StepMoves | programs/session-manager/src/lib.rs:131-224 | any other step keeps a key's session, revokes it in place, or removes it after it expired |
| SessionRuns.PaymentsMove | programs/session-manager/src/system_program.rs:31-42 | a payment between two system accounts moves exactly its amount |
| SessionRuns.RevocationKills | programs/session-manager/src/lib.rs:135-164 | a revocation leaves the key dead for its own expiration |
| SessionRuns.RevokedStaysDead | packages/sessions-sdk-rs/src/session/mod.rs:337-362 | once a key is revoked no session check on it passes in any run, unless a start carries a strictly later expiration |
| SessionRuns.ReplayNeverRevives | programs/session-manager/src/lib.rs:257-270 | a key started only ever with one intent, once revoked, is never revived by replaying that intent |
| SessionRuns.StartedSessionPasses | programs/session-manager/src/clock.rs:7-18 | after a start the check passes exactly when the intent has not expired and its major version is current |
| SessionRuns.StartTokens | programs/session-manager/src/lib.rs:57-73 | every approval of a start is accounted for by the session it stores |
| SessionRuns.DelegationsStayRecorded | programs/session-manager/src/token/revoke.rs:12-14 | in every run each delegation a start granted is recorded by an open session of its delegate, or held by one that cannot be closed |
| SessionRuns.CloseLeavesNoDelegation | programs/session-manager/src/lib.rs:173-222 | a close clears every delegation a start granted to the key and changes no token account not delegated to it |
| SessionFunds.LamportsConserved | programs/session-manager/src/system_program.rs:3-62 | no run creates or destroys a lamport |
| SessionFunds.RevokingShrinks | programs/session-manager/src/lib.rs:138-165 | revoking an active session strictly shrinks its account, revoking again changes nothing |
| SessionFunds.StartFloorExactly | programs/session-manager/src/system_program.rs:11-42 | a start leaves the rent minimum of the size its arguments determine unless the key sponsors itself with less than it, and only then |
| SessionFunds.SelfSponsoredStartIsUnderfunded | programs/session-manager/src/system_program.rs:25-42 | at every rent rate a balance can express, a start that leaves a session below its rent minimum |
| SessionFunds.RentFloorHolds | programs/session-manager/src/lib.rs:321-337 | in every run each session account stays at or above its rent minimum in every state if and only if no successful start is self-sponsored and underfunded |
| SessionEffects.StartAuthorizes | packages/sessions-sdk-rs/src/session/mod.rs:427-445 | a fresh session speaks for the signer, to exactly the domain's programs, until exactly the intent's expiration, and carries the signed domain's hash at version 4 |
| SessionEffects.StartPermits | packages/sessions-sdk-rs/src/session/token_program.rs:35-67 | the token program grants a fresh session the signer's tokens exactly when the first domain signer address given has signed, limited exactly if the intent is |
| SessionEffects.ApprovalsHonourLimits | programs/session-manager/src/token/approve.rs:26-30 | one approval per signed limit, in order, from its own two or three accounts, of the named mint or of one whose metadata has the symbol, for the converted amount |
| SessionEffects.ApprovalsTakeEffect | programs/session-manager/src/token/approve.rs:104-127 | an account's last approval decides its delegation; accounts without one are untouched |
| SessionEffects.LifetimesStayBounded | programs/session-manager/src/clock.rs:5-17 | in every run no session expires more than eight days after the current time |
| SessionEffects.RevocationSettles | programs/session-manager/src/lib.rs:321-337 | the account ends at exactly its new rent and the sponsor gains exactly the difference |
| SessionEffects.CloseSucceedsExactly | programs/session-manager/src/lib.rs:173-213 | a close succeeds exactly for an expired session of a closable kind, its own sponsor, and the token accounts of its recorded mints |
| SessionEffects.CloseSettles | programs/session-manager/src/lib.rs:257-264 | the sponsor gains exactly the account's lamports and the key becomes an empty system account |
| SessionExact.StartSucceedsExactly | programs/session-manager/src/lib.rs:53-129 | a start succeeds if and only if chain, session key, lifetime, record and version fit, every limit can be granted from its own accounts, the session can be encoded and the account funded |
| SessionExact.StartStoresExactly | programs/session-manager/src/lib.rs:77-125 | what a start stores at each minor version, field by field, and in how many bytes |
| SessionExact.StartSettles | programs/session-manager/src/system_program.rs:11-42 | a start takes exactly the missing rent from the sponsor and touches no third account |
| SessionExact.StartRefusals | programs/session-manager/src/lib.rs:53-75 | the first guard that fails decides the error of a start |
| SessionExact.ApprovalsResolveExactly | programs/session-manager/src/token/approve.rs:31-95 | approvals resolve if and only if each limit finds its token account, mint and metadata in its slot of the accounts |
| SessionExact.ApprovalRefusals | programs/session-manager/src/token/approve.rs:41-83 | which error a limit gives that does not resolve |
| SessionExact.FirstRefusalDecides | programs/session-manager/src/token/approve.rs:36-95 | the first limit that does not resolve decides the error |
| SessionExact.ApprovalsApply | programs/session-manager/src/token/approve.rs:97-129 | approvals apply if and only if each goes to an unfrozen token account of its mint |
| SessionExact.FundingExactly | programs/session-manager/src/system_program.rs:3-62 | when an account can be funded for its size, and the balances afterwards |
| SessionExact.FreshKeyIsFunded | programs/session-manager/src/system_program.rs:11-25 | a key that never held anything can be funded by whoever can pay its rent |
| SessionExact.RevokeSucceedsExactly | programs/session-manager/src/lib.rs:132-167 | a revocation succeeds if and only if the account holds a version 2, 3 or 4 session, its sponsor is named and the refund fits |
| SessionExact.RevokeStoresExactly | programs/session-manager/src/lib.rs:135-164 | what a revocation stores for each version, the new size and both balances |
| SessionExact.RevokeRefusals | programs/session-manager/src/lib.rs:135-137 | which error a revocation gives for another account, another sponsor or an old version |
| SessionExact.CloseExactly | programs/session-manager/src/lib.rs:173-213 | a close succeeds if and only if the session expired, its sponsor is another key and named, and its version allows it with the token accounts given |
| SessionExact.CloseClears | programs/session-manager/src/token/revoke.rs:25-46 | a close clears exactly the accounts given for recorded mints that are delegated to the key |
| SessionExact.CloseRefusals | programs/session-manager/src/lib.rs:199-224 | which error a close gives |
| SessionExact.CheckExactly | packages/sessions-sdk-rs/src/session/mod.rs:318-362 | the session check passes if and only if the session is of the current major version, active and unexpired, and which error it gives otherwise |
| SessionExact.ProgramCheckExactly | packages/sessions-sdk-rs/src/session/mod.rs:364-445 | a program gets the user of a standing session that admits it, and the domain hash of a standing version 4 session |
| SessionExact.TokenCheckExactly | packages/sessions-sdk-rs/src/session/token_program.rs:35-67 | the token program gets the limits of a standing session of that user whose programs sign |
| SessionExact.ProgramSignerExactly | packages/sessions-sdk-rs/src/session/token_program.rs:35-67 | when the programs sign, and when none of them is among the accounts |
| Matcher.ValidateInstructionConstraints | services/paymaster/src/constraint/mod.rs:183-241 | the loop accepts exactly as the greedy definition does, and each error names the constraint and instruction the run had reached with all earlier ones settled |
| Matcher.GreedyIsFullProgress | services/paymaster/src/constraint/mod.rs:192-240 | acceptance is a run that matches every instruction and fails no required constraint |
| Matcher.BranchingDecides | services/paymaster/src/constraint/mod.rs:186-191 | the branching procedure the comment describes decides whether an order-preserving alignment exists |
| Matcher.GreedyIsSound | services/paymaster/src/constraint/mod.rs:192-224 | acceptance yields an increasing map of all instructions to accepting constraints that misses only optional ones |
| Matcher.GreedyDecidesSeparated | services/paymaster/src/constraint/mod.rs:186-191 | for a transaction whose instructions never clash, greedy decides alignability |
| Matcher.ClashLoses | services/paymaster/src/constraint/mod.rs:186-191 | every clash of an optional constraint with the next required one loses some alignable transaction |
| Matcher.GreedyCompleteExactly | services/paymaster/src/constraint/mod.rs:186-191 | greedy accepts every alignable transaction if and only if a required constraint is unsatisfiable or nothing clashes |
| Expansion.ExpansionKeepsAlignments | services/paymaster/src/constraint/config.rs:332-350 | inserting the optional wrapping constraints loses no alignable transaction |
| Expansion.ExpansionKeepsGreedy | services/paymaster/src/constraint/config.rs:332-350 | for a transaction whose instructions never clash after expansion, greedy accepts it if it did before |
| Expansion.InsertionExact | services/paymaster/src/constraint/config.rs:332-350 | inserting optional constraints anywhere costs greedy no transaction if and only if nothing was accepted before or the insertions steal from no required constraint |
| Expansion.ExpansionExact | services/paymaster/src/constraint/config.rs:332-350 | the same for the expansion of any list of entries |
| Expansion.InsertedClashLoses | services/paymaster/src/constraint/config.rs:332-350 | whatever the list, an inserted constraint and the next required one accepting the same instruction lose a transaction greedy accepted |
| Expansion.SeparatedExpansionExact | services/paymaster/src/constraint/config.rs:332-350 | for a list without clashes before, the expansion loses nothing if and only if nothing is accepted or no wrapping constraint clashes, which is when the expanded list has no clashes either |
| Constraints.ValidateInstructions | services/paymaster/src/constraint/transaction.rs:36-46 | the substantive instructions stand at the positions `p`, in order; acceptance assigns them in order to accepting constraints, and an error names the place where the run stopped |
| Constraints.SubstantiveIs | services/paymaster/src/constraint/transaction.rs:36-46 | the filter keeps exactly the instructions of other programs than the compute budget's and the tollbooth's, in their order |
| Constraints.AccountCheckMeans | services/paymaster/src/constraint/mod.rs:364-486 | an account check takes the included keys, or all if none are, less the excluded ones |
| Constraints.IntegerCheckMeans | services/paymaster/src/constraint/mod.rs:556-763 | integer checks compare the little-endian integer of their width and refuse shorter data |
| Constraints.BytesCheckMeans | services/paymaster/src/constraint/mod.rs:556-763 | flag, key, byte and signed-quote checks compare the bytes of their length and refuse shorter data |
| Constraints.WrappingTemplates | services/paymaster/src/constraint/templates.rs:114-188 | exactly which instructions the four wrapping templates accept; no instruction satisfies two of them |
| Constraints.NativeWrappingKeepsAlignments | services/paymaster/src/constraint/templates.rs:114-188 | the four native-wrapping templates lose no alignable transaction, in any context |
| Constraints.NativeWrappingCanLose | services/paymaster/src/constraint/templates.rs:154-170 | a configuration and transaction that greedy accepts before the expansion and rejects after it |
| Constraints.NativeWrappingExact | services/paymaster/src/constraint/config.rs:332-350 | exactly when expanding with the four templates costs greedy no transaction: for every list by stolen instructions, and for a list without clashes before by SessionWrap, CreateIdempotent, SyncNative and CloseAccount instructions the next required constraint accepts |
| Constraints.NativeClashLoses | services/paymaster/src/constraint/config.rs:332-350 | in any configured list, such an instruction loses a transaction greedy accepted before the expansion |
| Constraints.UnseparatedCanLoseWithoutClash | services/paymaster/src/constraint/config.rs:332-350 | a list with a clash of its own that loses a transaction by the expansion although no wrapping instruction clashes |
| Constraints.IntentTemplate | services/paymaster/src/constraint/templates.rs:12-56 | the template accepts exactly one self-contained signature verification |
| Constraints.StartTemplate | services/paymaster/src/constraint/templates.rs:58-90 | the template accepts exactly a start paid by the sponsor, for a key that signed, under the domain's record |
| Constraints.EstablishmentIsExact | services/paymaster/src/constraint/templates.rs:193-205 | the establishment variation accepts exactly an intent followed by a start |
| Constraints.EstablishesExactly | services/paymaster/src/constraint/transaction.rs:36-46 | on a whole transaction the establishment variation accepts exactly an intent, then a start, and besides them compute-budget and toll instructions |
| Constraints.RevocationIsExact | services/paymaster/src/constraint/templates.rs:207-218 | the revocation variation accepts exactly one revocation whose first account signed and is not the fee payer |
| Constraints.RevokesExactly | services/paymaster/src/constraint/transaction.rs:36-46 | on a whole transaction the revocation variation accepts exactly one revocation by its own key and besides it compute-budget and toll instructions |
| Gas.ScanFinds | services/paymaster/src/constraint/gas.rs:28-67 | the scan succeeds exactly on parseable budgets with at most one instruction of each kind, and finds their operands |
| Gas.BudgetsParseExactly | services/paymaster/src/constraint/gas.rs:36-66 | exactly the data that parses to each compute-budget instruction |
| Gas.OperandsAre | services/paymaster/src/constraint/gas.rs:36-73 | limit and price are the operands of the one instruction that sets each |
| Gas.ScanOffends | services/paymaster/src/constraint/gas.rs:37-65 | the scan stops at the first instruction that does not parse, is unused or repeats a kind, and says which |
| Gas.ProcessComputeBudget | services/paymaster/src/constraint/gas.rs:12-74 | the loop succeeds exactly on well-formed budgets, returns their priority fee, and otherwise names the first offence |
| Gas.CountPrecompileSignatures | services/paymaster/src/constraint/gas.rs:83-96 | the saturating fold is the exact count, capped |
| Gas.OneCounts | services/paymaster/src/constraint/gas.rs:76-96 | an instruction counts its first byte if its program is one of the three precompiles, and nothing otherwise |
| Gas.SignaturesAdd | services/paymaster/src/constraint/gas.rs:83-96 | a transaction counts what its parts count |
| Gas.ComputeGasSpend | services/paymaster/src/constraint/gas.rs:98-107 | gas is computed exactly when the budget is well formed |
| Gas.GasCheckAgrees | services/paymaster/src/constraint/mod.rs:149-163 | below the saturated fee, the check accepts exactly when the unbounded gas is within the maximum |
| Gas.GasCheckExactly | services/paymaster/src/constraint/gas.rs:69-73 | agreement on all transactions holds if and only if the maximum is below the saturated fee |
| Fees.ComputePaymasterFees | services/paymaster/src/constraint/fee.rs:14-40 | the saturating total is the exact weighted sum, capped; it fails exactly when a toll cannot be read, with the first such error |
| Fees.TollsParseExactly | services/paymaster/src/constraint/fee.rs:42-62 | a toll parses to an amount if and only if its data is the discriminator, the amount in eight bytes and a recipient byte |
| Fees.TollPays | services/paymaster/src/constraint/fee.rs:19-39 | a toll pays its amount times the coefficient of its mint, or nothing without one |
| Fees.FeesOfPermutation | services/paymaster/src/constraint/fee.rs:19-39 | the order of the instructions matters neither to readability nor to the total |
| Fees.QuoteIsExact | services/paymaster/src/api.rs:713-727 | a single toll meets the variation's fee exactly when it is at least the quoted amount |
| LookupTables.LocateIsIndexing | services/paymaster/src/rpc.rs:132-194 | resolving a position is indexing static keys, then all writable lookups, then all read-only ones |
| LookupTables.LocateRefusals | services/paymaster/src/rpc.rs:122-194 | which error an account without a place gives |
| LookupTables.ChainIndex.QueryLookupTable | services/paymaster/src/rpc.rs:217-223 | the cached entry, or none |
| LookupTables.ChainIndex.QueryWithRetry | services/paymaster/src/rpc.rs:196-248 | a hit leaves the cache alone, a miss replaces the entry, any answer is the chain's, and not-in-table after a fetch of the current table means the chain has no such entry |
| LookupTables.ChainIndex.ResolveInstructionAccount | services/paymaster/src/rpc.rs:122-177 | resolution through the cache returns the entry of the transaction's account list; not-in-table after a fetch of the current table means that entry is missing; a failed fetch means the cache had none |
| LookupTables.CacheStaysConsistent | services/paymaster/src/rpc.rs:196-248 | under every interleaving cached tables are prefixes of the chain's and answers already given stay right |
| LookupTables.CachedCallerIsAnswered | services/paymaster/src/rpc.rs:196-223 | a caller whose entry is cached is answered from the cache and changes nothing |
| LookupTables.UncachedCallerFetches | services/paymaster/src/rpc.rs:196-248 | any other caller fetches, caches what it fetched and answers from it, or reports the failed fetch |
| LookupTables.CallersAreApart | services/paymaster/src/rpc.rs:196-248 | no step of one caller changes another, and tables only grow |
| LookupTables.AnswersAreDirectIndexing | services/paymaster/src/rpc.rs:143-168 | from an empty cache, every key returned equals direct indexing, and not-in-table with a table fetched at its present length means indexing finds nothing |
| Reconnect.ReconnectsOnce | services/paymaster/src/api.rs:81-107 | in every interleaving each client is replaced at most once, by a caller that had loaded it, and success means a newer client followed |
| Reconnect.LoneCallerConnects | services/paymaster/src/api.rs:81-107 | a caller alone takes the lock and connects: it replaces the client and succeeds, or fails and leaves it; the lock is free again |
| Reconnect.LockExcludes | services/paymaster/src/api.rs:84-84 | while one caller holds the lock no other can take it |
| Reconnect.ReplacedClientSuffices | services/paymaster/src/api.rs:86-96 | a caller whose client was replaced meanwhile succeeds without connecting; one whose client is still in use connects |
| Reconnect.FailureIsItsOwn | services/paymaster/src/api.rs:96-106 | a caller fails only by its own failed attempt to connect |
| Reconnect.OneConnectionForAll | services/paymaster/src/api.rs:81-107 | two callers that loaded the same client share one replacement and both succeed |
| Amounts.AmountRoundTrip | packages/sessions-sdk-react/src/amount-to-string.ts:1-45 | parsing the ungrouped printed amount returns it, for all amounts and decimals |
| Amounts.PrintingIsInjective | packages/sessions-sdk-ts/src/index.ts:806-819 | at fixed decimals different amounts print differently |
| Amounts.PrintedForm | packages/sessions-sdk-react/src/amount-to-string.ts:30-44 | digits without a leading zero, then perhaps a fraction that fits the decimals and does not end in zero |
| Amounts.AmountsParseExactly | packages/sessions-sdk-react/src/amount-to-string.ts:1-28 | exactly digits with perhaps a dot and as many digits as there are decimals or fewer are amounts, and what they are worth |
| Amounts.TooPreciseExactly | packages/sessions-sdk-react/src/amount-to-string.ts:1-28 | the precision error is given exactly for digits and a single dot with more characters behind it than there are decimals |
| KeyValue.FieldInverse | packages/solana-intents/src/key_value.rs:41-72 | a printed line with any break-free value parses to its key and value and leaves what follows |
| IntentText.BlockInverse | packages/solana-intents/src/key_value.rs:59-66 | the dash-line block ends exactly where the printed token list ends |
| IntentText.LimitsInverse | programs/session-manager/src/message.rs:151-171 | the printed token list parses to its names and amounts in order |
| IntentRoundTrip.TokensInverse | packages/sessions-sdk-ts/src/index.ts:789-804 | unlimited, empty and specific token fields all read back, whatever fields follow |
| IntentRoundTrip.TokensReportedExactly | packages/solana-intents/src/symbol_or_mint.rs:11-19 | tokens are reported as intended if and only if no symbol reads as a key |
| IntentRoundTrip.VersionInverse | packages/solana-intents/src/version.rs:17-48 | every printed minor version parses back |
| IntentRoundTrip.FoldAdds | programs/session-manager/src/message.rs:92-104 | the fold keeps every pair and refuses exactly reserved and repeated keys |
| IntentRoundTrip.ExtrasReadExactly | packages/sessions-sdk-ts/src/index.ts:770-787 | extras the SDK lets through read back if and only if no key is reserved and no value has a carriage return |
| IntentRoundTrip.ReservedExtraIsLost | packages/sessions-sdk-ts/src/index.ts:770-780 | an extra with the key version passes the SDK's check and does not read back |
| IntentRoundTrip.ReturnInExtraIsLost | packages/sessions-sdk-ts/src/index.ts:775-777 | an extra value with a carriage return passes the SDK's check and does not read back |
| IntentRoundTrip.IntentReadExactly | programs/session-manager/src/message.rs:60-119 | the printed intent parses to exactly its fields, tokens and extras, if and only if symbols, keys and values are as above |
| IntentRoundTrip.ParsedMessagesAreSound | programs/session-manager/src/message.rs:74-107 | whatever the text, a parsed message has major version 0, and the extra lines read from the text have no reserved key, no key twice and are exactly its extras |
| TextExact.TextsExactly | programs/session-manager/src/message.rs:60-119 | the parser accepts exactly the texts of the grammar, each as the message its fields mean |
| TextExact.ValuesExactly | packages/solana-intents/src/key_value.rs:55-70 | after a colon: a space and the rest of the line, or a line break and a maximal block of dash lines, or nothing at the end |
| TextExact.ExtrasExactly | packages/solana-intents/src/key_value.rs:27-39 | extras are keyed lines to the end of the text |
| TextExact.VersionsExactly | packages/solana-intents/src/version.rs:17-48 | a version is two numbers up to 255 with a dot between them |
| TextExact.TokensExactly | programs/session-manager/src/message.rs:151-171 | the tokens field is one of two sentences or at least one dash line of name and amount |
| TextExact.SnakeCaseExactly | packages/sessions-sdk-ts/src/index.ts:770-774 | the SDK lets through exactly keys of words of lower-case letters and digits, one underscore between them, the first of letters alone |
| Envelope.VecWithLen | packages/solana-intents/src/offchain_message.rs:193-206 | the reading loop returns the counted elements and the rest |
| Envelope.EnvelopeRoundTrip | packages/solana-intents/src/offchain_message.rs:39-136 | every valid envelope of either version decodes to itself |
| Envelope.AcceptedIsEncoding | packages/solana-intents/src/offchain_message.rs:77-215 | every accepted byte string is the encoding of a valid envelope; a version 1 envelope has signers and none twice |
| Envelope.ValidMeans | packages/solana-intents/src/offchain_message.rs:77-136 | format, length, character and signer-order rules of valid envelopes of both versions |
| Envelope.PrecedesExactly | packages/solana-intents/src/offchain_message.rs:120-127 | the order of signers is that of the first differing byte |
| Envelope.DeserializesExactly | packages/solana-intents/src/lib.rs:174-203 | which bytes are an envelope, a legacy message or refused, and with which error |
| Envelope.RawExactly | packages/solana-intents/src/lib.rs:174-203 | a message is taken as bare exactly when it lacks the signing domain |
| Envelope.SigningDomainIs | packages/sessions-sdk-react/src/solana-wallet.ts:125-128 | the signing domain is a byte UTF-8 never uses and the encoded text |
| Envelope.LegacyTextCapturedExactly | packages/solana-intents/src/offchain_message.rs:163-222 | a legacy-wrapped text passes for a current envelope if and only if its thirtieth byte is a format number and the rest is a counted signer list and a valid counted message, with nothing left over |
| Envelope.LegacyTextReachesLegacy | packages/sessions-sdk-react/src/solana-wallet.ts:125-133 | a legacy-wrapped text reaches the legacy decoder if and only if it is not captured; texts of bytes from 3 upwards always do |
| Envelope.SomeLegacyTextIsCaptured | packages/solana-intents/src/offchain_message.rs:175-183 | a legacy-wrapped text with small bytes that is taken for a version 0 envelope |
| Ed25519.WriteU16 | packages/sessions-sdk-ts/src/index.ts:722-728 | two little-endian bytes are written and no others |
| Ed25519.WriteHeader | packages/sessions-sdk-ts/src/index.ts:720-728 | the sixteen header bytes |
| Ed25519.BuildWithOffsets | packages/sessions-sdk-ts/src/index.ts:693-738 | the buffer written in place is header, signature and message, with both argument errors |
| Ed25519.InstructionInverse | packages/solana-intents/src/lib.rs:59-147 | decoding returns the key at the given offset and the whole message, and passes the header check |
| Ed25519.DecodesExactly | packages/solana-intents/src/lib.rs:66-146 | an instruction decodes if and only if it holds one signature whose key, signature and message are in the instruction itself and the slices named are inside it and readable; the result is those slices |
| Ed25519.DecodedPassesTemplate | services/paymaster/src/constraint/templates.rs:12-56 | whatever the program decodes satisfies the intent template |
| Ed25519.InstructionPassesTemplate | services/paymaster/src/constraint/templates.rs:12-56 | both forms of the built instruction satisfy the intent template |
| Ed25519.KeyAtOffset | packages/sessions-sdk-ts/src/index.ts:740-768 | the computed offset points at the wallet's key in either envelope version |
| Ed25519.WalletSignsEnvelope | packages/solana-intents/src/lib.rs:23-57 | for every signature and fitting envelope listing the wallet, the instruction passes the template and decodes to that wallet and envelope |
| Ed25519.KeyFirstInverse | packages/solana-intents/src/lib.rs:86-110 | with the key in front of the signature, decoding returns that key and the whole message |
| Ed25519.WalletSignsMessage | packages/sessions-sdk-ts/src/index.ts:669-686 | whichever form the SDK chooses for a message the program can read, the instruction passes the template and decodes to the wallet and that message |
| Ed25519.SdkDataVerifies | packages/sessions-sdk-ts/src/index.ts:669-738 | in whichever form the SDK chooses, signature, key and message that the header names are the given signature, the wallet and the whole message |
| Utf8.DecodeInverse | packages/sessions-sdk-ts/src/index.ts:662-664 | every text is decoded from its own encoding, which is well formed |
| Utf8.DecodesExactly | packages/solana-intents/src/offchain_message.rs:77-98 | decoding succeeds exactly on well-formed bytes and encoding the result gives them back |
| IntentPipeline.DraftReachesProgram | packages/sessions-sdk-ts/src/index.ts:651-686 | a draft signed bare, in the legacy wrapping, or in an envelope that lists the wallet or not, passes the paymaster's template, has the wallet's signature over it verified, and is read on chain as the wallet's own draft, through all formats |
| IntentPipeline.SignedTextReads | packages/solana-intents/src/lib.rs:174-203 | a printed intent is read back out of all three forms a wallet may sign: bare, legacy-wrapped or in an envelope |
| DomainRegistry.DomainRecord.Contains | programs/domain-registry/src/state.rs:88-91 | whether the bytes hold the entry |
| DomainRegistry.DomainRecord.FindProgram | programs/domain-registry/src/state.rs:92-95 | the first entry of the program, or none |
| DomainRegistry.DomainRecord.AdjustRentIfNeeded | programs/domain-registry/src/state.rs:115-144 | the record is brought to exactly its rent, or nothing changes |
| DomainRegistry.DomainRecord.PushEntry | programs/domain-registry/src/state.rs:55-66 | the entry list grows by exactly the entry at the end |
| DomainRegistry.DomainRecord.SwapRemove | programs/domain-registry/src/state.rs:68-86 | the last entry takes the removed entry's place and the list shrinks by one |
| DomainRegistry.DomainRecord.Add | programs/domain-registry/src/lib.rs:35-60 | the whole new record of an addition, and no change otherwise |
| DomainRegistry.DomainRecord.Remove | programs/domain-registry/src/lib.rs:62-83 | the whole new record of a removal, and no change otherwise |
| DomainRegistry.AddStep | programs/domain-registry/src/lib.rs:35-60 | an addition adds exactly a new program, conserves lamports and settles the rent |
| DomainRegistry.RemoveStep | programs/domain-registry/src/lib.rs:62-83 | a removal deletes exactly the program, conserves lamports and settles the rent, to zero when empty |
| DomainRegistry.RefusalsAreExact | programs/domain-registry/src/lib.rs:55-80 | already-added and not-found are reported exactly for present and absent programs |
| DomainRegistry.AddsExactly | programs/domain-registry/src/lib.rs:35-60 | a program is added if and only if it is not listed with its signer, fits, and the rent can be settled; its entry then stands at the end |
| DomainRegistry.RemovesExactly | programs/domain-registry/src/lib.rs:62-83 | a program is removed if and only if it is listed and the rent can be settled; the last entry then stands in its place |
| DomainRegistry.RecordRefinesSet | programs/domain-registry/src/state.rs:55-144 | over every run the record is a duplicate-free list of exactly the set the successful steps build, and lamports are conserved |

## Left out

- Signatures, hashes, address derivations, base58, RFC 3339 times, amount conversion, NTT quote recovery and the legacy message crate: arbitrary functions passed in.
- The token program: only that an approval sets the delegate, a revocation clears it, and both refuse frozen, foreign or mismatched accounts; the session setter's authority is taken as given.
- Signer and account-ownership checks that Anchor generates: a step may be attempted by anyone, which only adds runs.
- The rent sysvar's floating-point exemption threshold: rent is a rate per byte times the size plus 128.
- Account reallocation limits within one transaction, and the runtime's rent check at its end.
- `get_extra`: the live-and-unrevoked check followed by one lookup.
- Program whitelists (variation V0), swap rates, the selection among variations and the parsing of configuration values: single membership tests, products and field-by-field conversions that no other operation depends on.
- Parsing on bytes: the session manager's parser takes its fields out of the UTF-8 bytes and decodes each value; the model decodes the text first and parses characters. All delimiters and key characters are ASCII.
- Lone UTF-16 surrogates, which `TextEncoder` replaces: texts are sequences of Unicode scalar values.
- The libraries behind the SDK: of `@solana/kit`'s envelope decoder only that what it finds in a message is what the message encodes, of `@solana/web3.js` only the layout that puts the key before the signature.
- Number grouping in the UI's amounts, and `BigInt`'s acceptance of spaces, signs and prefixes: amounts are digits with at most one dot.
- The domain text and record-address checks, and the authority check, of the domain registry's handlers.
- Intent transfers, bridging, swaps, HTTP handlers, user interface, load tests and scripts.
- LookupTables.ChainIndex.QueryWithRetry: after a fetch of an older table, an index reported as missing is missing from that table, not necessarily from the chain's.
- Ed25519.WalletSignsEnvelope: sizes beyond sixteen bits, where the written lengths wrap, are built by the model but not shown to be rejected.
