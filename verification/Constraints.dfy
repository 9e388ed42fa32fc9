/**
 * What one instruction constraint checks of one instruction, the constraint templates the
 * paymaster builds in, and the matching of whole transactions against them.
 */
module Constraints {
  import opened Common
  import opened Matcher
  import opened Expansion

  /** Program ids: the ones the code names, and every other. */
  datatype ProgramId =
    | SystemProgram
    | TokenProgram
    | AssociatedTokenProgram
    | SessionManagerProgram
    | ComputeBudgetProgram
    | TollboothProgram
    | Ed25519Program
    | Secp256k1Program
    | Secp256r1Program
    | OtherProgram(id: Pubkey)

  datatype Instruction = Instruction(program: ProgramId, accounts: Bytes, data: Bytes)

  datatype ContextualPubkey = Explicit(key: Pubkey) | Sponsor | NonFeePayerSigner | DomainRegistry

  datatype AccountConstraint =
    AccountConstraint(index: nat, included: seq<ContextualPubkey>, excluded: seq<ContextualPubkey>)

  datatype ValueConstraint<T> =
    LessThan(bound: T) | GreaterThan(bound: T) | EqualTo(values: seq<T>) | Neq(values: seq<T>)
  datatype ScalarConstraint<T> = OneOf(values: seq<T>) | NoneOf(values: seq<T>)

  datatype DataSpecification =
    | U8(u8: ValueConstraint<nat>)
    | U16(u16: ValueConstraint<nat>)
    | U32(u32: ValueConstraint<nat>)
    | U64(u64: ValueConstraint<nat>)
    | Bool(flag: ScalarConstraint<bool>)
    | Key(key: ScalarConstraint<Bytes>)
    | Raw(length: nat, bytes: ScalarConstraint<Bytes>)
    | NttSignedQuoter(quoter: ScalarConstraint<Bytes>)

  datatype DataConstraint = DataConstraint(startByte: nat, constraint: DataSpecification)

  datatype Constraint =
    Constraint(program: ProgramId, accounts: seq<AccountConstraint>, data: seq<DataConstraint>, required: bool)

  /** What a check depends on besides the constraint and the instruction. */
  datatype Context = Context(
    signers: seq<Pubkey>, sponsor: Pubkey, domainRegistry: Pubkey,
    resolve: (Instruction, nat) -> Option<Pubkey>,
    recoverQuoter: Bytes -> Option<Bytes>)

  // ---------- account checks ----------

  predicate Names(p: ContextualPubkey, account: Pubkey, ctx: Context)
  {
    match p
    case Explicit(key) => account == key
    case Sponsor => account == ctx.sponsor
    case NonFeePayerSigner => exists i :: 1 <= i < |ctx.signers| && ctx.signers[i] == account
    case DomainRegistry => account == ctx.domainRegistry
  }

  /** Every exclusion must hold; of the inclusions, if there are any, one must. */
  predicate CheckAccount(c: AccountConstraint, account: Pubkey, ctx: Context)
  {
    && (forall p :: p in c.excluded ==> !Names(p, account, ctx))
    && (c.included != [] ==> exists p :: p in c.included && Names(p, account, ctx))
  }

  // ---------- data checks ----------

  predicate CheckValue(c: ValueConstraint<nat>, value: nat)
  {
    match c
    case LessThan(bound) => value < bound
    case GreaterThan(bound) => value > bound
    case EqualTo(values) => value in values
    case Neq(values) => value !in values
  }

  predicate CheckScalar<T(==)>(c: ScalarConstraint<T>, value: T)
  {
    match c
    case OneOf(values) => value in values
    case NoneOf(values) => value !in values
  }

  function ByteLength(s: DataSpecification): nat
  {
    match s
    case U8(_) => 1
    case U16(_) => 2
    case U32(_) => 4
    case U64(_) => 8
    case Bool(_) => 1
    case Key(_) => 32
    case Raw(length, _) => length
    case NttSignedQuoter(_) => 165
  }

  predicate CheckData(c: DataConstraint, data: Bytes, ctx: Context)
  {
    var end := c.startByte + ByteLength(c.constraint);
    end <= |data| &&
    var slice := data[c.startByte..end];
    match c.constraint
    case U8(v) => CheckValue(v, slice[0])
    case U16(v) => CheckValue(v, FromLe(slice))
    case U32(v) => CheckValue(v, FromLe(slice))
    case U64(v) => CheckValue(v, FromLe(slice))
    case Bool(v) => CheckScalar(v, slice[0] != 0)
    case Key(v) => CheckScalar(v, slice)
    case Raw(_, v) => CheckScalar(v, slice)
    case NttSignedQuoter(v) => ctx.recoverQuoter(slice).Some? && CheckScalar(v, ctx.recoverQuoter(slice).value)
  }

  predicate Accepts(ctx: Context, c: Constraint, x: Instruction)
  {
    && x.program == c.program
    && (forall a :: a in c.accounts ==>
        ctx.resolve(x, a.index).Some? && CheckAccount(a, ctx.resolve(x, a.index).value, ctx))
    && (forall d :: d in c.data ==> CheckData(d, x.data, ctx))
  }

  function RulesIn(ctx: Context): Rules<Constraint, Instruction>
  {
    Rules((c, x) => Accepts(ctx, c, x), (c: Constraint) => c.required)
  }

  // ---------- transactions ----------

  predicate IsSubstantive(x: Instruction) { !x.program.ComputeBudgetProgram? && !x.program.TollboothProgram? }

  /** Compute-budget and tollbooth instructions are not matched against constraints. */
  function Substantive(xs: seq<Instruction>): (r: seq<Instruction>)
    ensures forall x :: x in r <==> x in xs && IsSubstantive(x)
  {
    if xs == [] then []
    else (if IsSubstantive(xs[0]) then [xs[0]] else []) + Substantive(xs[1..])
  }

  /** The positions of all instructions of other programs than the compute budget's and the tollbooth's, in order. */
  ghost predicate PicksSubstantive(xs: seq<Instruction>, p: seq<nat>)
  {
    && (forall i, j :: 0 <= i < j < |p| ==> p[i] < p[j])
    && (forall i :: 0 <= i < |p| ==> p[i] < |xs|)
    && forall k :: 0 <= k < |xs| ==>
         (k in p <==> xs[k].program != ComputeBudgetProgram && xs[k].program != TollboothProgram)
  }

  function Select(xs: seq<Instruction>, p: seq<nat>): (r: seq<Instruction>)
    requires forall i :: 0 <= i < |p| ==> p[i] < |xs|
    ensures |r| == |p| && forall i :: 0 <= i < |p| ==> r[i] == xs[p[i]]
  {
    seq(|p|, i requires 0 <= i < |p| => xs[p[i]])
  }

  function Positions(xs: seq<Instruction>, from: nat): seq<nat>
    requires from <= |xs|
    decreases |xs| - from
  {
    if from == |xs| then [] else (if IsSubstantive(xs[from]) then [from] else []) + Positions(xs, from + 1)
  }

  /** The substantive positions from `from` on, in order. */
  ghost predicate PicksFrom(xs: seq<Instruction>, from: nat, p: seq<nat>)
  {
    && (forall i, j :: 0 <= i < j < |p| ==> p[i] < p[j])
    && (forall i :: 0 <= i < |p| ==> from <= p[i] < |xs|)
    && forall k :: from <= k < |xs| ==> (k in p <==> IsSubstantive(xs[k]))
  }

  lemma PickOne(xs: seq<Instruction>, from: nat, q: seq<nat>)
    requires from < |xs| && IsSubstantive(xs[from]) && PicksFrom(xs, from + 1, q)
    ensures PicksFrom(xs, from, [from] + q)
  {
    var p := [from] + q;
    assert forall i :: 0 < i < |p| ==> p[i] == q[i - 1];
    assert forall k :: k in p <==> k == from || k in q;
  }

  lemma SkipOne(xs: seq<Instruction>, from: nat, q: seq<nat>)
    requires from < |xs| && !IsSubstantive(xs[from]) && PicksFrom(xs, from + 1, q)
    ensures PicksFrom(xs, from, q)
  {
    assert forall i :: 0 <= i < |q| ==> q[i] != from;
  }

  lemma {:induction false} PositionsPick(xs: seq<Instruction>, from: nat)
    requires from <= |xs|
    ensures PicksFrom(xs, from, Positions(xs, from))
    decreases |xs| - from
  {
    if from < |xs| {
      PositionsPick(xs, from + 1);
      PositionsStep(xs, from);
      if IsSubstantive(xs[from]) {
        PickOne(xs, from, Positions(xs, from + 1));
      } else {
        SkipOne(xs, from, Positions(xs, from + 1));
      }
    }
  }

  lemma SelectCons(xs: seq<Instruction>, k: nat, q: seq<nat>)
    requires k < |xs| && forall i :: 0 <= i < |q| ==> q[i] < |xs|
    ensures forall i :: 0 <= i < |[k] + q| ==> ([k] + q)[i] < |xs|
    ensures Select(xs, [k] + q) == [xs[k]] + Select(xs, q)
  {
  }

  lemma SubstantiveStep(xs: seq<Instruction>, from: nat)
    requires from < |xs|
    ensures Substantive(xs[from..]) ==
            if IsSubstantive(xs[from]) then [xs[from]] + Substantive(xs[from + 1..]) else Substantive(xs[from + 1..])
  {
    assert xs[from..][1..] == xs[from + 1..];
  }

  lemma PositionsStep(xs: seq<Instruction>, from: nat)
    requires from < |xs|
    ensures Positions(xs, from) ==
            if IsSubstantive(xs[from]) then [from] + Positions(xs, from + 1) else Positions(xs, from + 1)
  {
  }

  lemma {:induction false} SelectPositions(xs: seq<Instruction>, from: nat)
    requires from <= |xs|
    ensures forall i :: 0 <= i < |Positions(xs, from)| ==> Positions(xs, from)[i] < |xs|
    ensures Substantive(xs[from..]) == Select(xs, Positions(xs, from))
    decreases |xs| - from
  {
    if from < |xs| {
      SelectPositions(xs, from + 1);
      SubstantiveStep(xs, from);
      PositionsStep(xs, from);
      if IsSubstantive(xs[from]) {
        SelectCons(xs, from, Positions(xs, from + 1));
      }
    }
  }

  /** The filter keeps exactly those instructions, in their order. */
  lemma SubstantiveIs(xs: seq<Instruction>) returns (p: seq<nat>)
    ensures PicksSubstantive(xs, p) && Substantive(xs) == Select(xs, p)
  {
    p := Positions(xs, 0);
    PositionsPick(xs, 0);
    SelectPositions(xs, 0);
    assert xs[0..] == xs;
  }

  /**
   * A validated transaction has an order-preserving assignment of all its substantive instructions,
   * which stand at the positions `p`; an error names a constraint and a place in that list.
   */
  method ValidateInstructions(ctx: Context, cs: seq<Constraint>, xs: seq<Instruction>)
    returns (r: Result<(), MatchError>, ghost p: seq<nat>, ghost f: seq<nat>)
    ensures PicksSubstantive(xs, p)
    ensures r.Ok? <==> Greedy(RulesIn(ctx), cs, Select(xs, p))
    ensures r.Ok? ==> IsAlignment(RulesIn(ctx), cs, Select(xs, p), f)
    ensures r.Err? ==> Explains(RulesIn(ctx), cs, Select(xs, p), r.error)
  {
    p := SubstantiveIs(xs);
    r := ValidateInstructionConstraints(RulesIn(ctx), cs, Substantive(xs));
    f := [];
    if r.Ok? {
      f := GreedyIsSound(RulesIn(ctx), cs, Substantive(xs));
    }
  }

  // ---------- templates ----------

  function ByteIs(start: nat, value: byte): DataConstraint { DataConstraint(start, U8(EqualTo([value]))) }

  function CurrentInstruction(start: nat): DataConstraint { DataConstraint(start, U16(EqualTo([U16_MAX]))) }

  const INTENT := Constraint(Ed25519Program, [],
    [ByteIs(0, 1), ByteIs(1, 0), CurrentInstruction(4), CurrentInstruction(8), CurrentInstruction(14)], true)

  const START_SESSION := Constraint(SessionManagerProgram,
    [AccountConstraint(0, [Sponsor], []), AccountConstraint(2, [NonFeePayerSigner], []),
      AccountConstraint(4, [DomainRegistry], [])],
    [ByteIs(0, 0)], true)

  const REVOKE_SESSION :=
    Constraint(SessionManagerProgram, [AccountConstraint(0, [NonFeePayerSigner], [])], [ByteIs(0, 1)], true)

  const SESSION_WRAP := Constraint(SystemProgram, [], [DataConstraint(0, U32(EqualTo([4_000_000])))], false)

  const CREATE_ATA :=
    Constraint(AssociatedTokenProgram, [AccountConstraint(0, [NonFeePayerSigner], [])], [ByteIs(0, 1)], false)

  const SYNC_NATIVE := Constraint(TokenProgram, [], [ByteIs(0, 17)], false)

  const CLOSE_TOKEN_ACCOUNT := Constraint(TokenProgram, [], [ByteIs(0, 9)], false)

  const NATIVE_WRAPPING := Wrapping(SESSION_WRAP, CREATE_ATA, SYNC_NATIVE, CLOSE_TOKEN_ACCOUNT)

  const WRAPPING_TEMPLATES := [SESSION_WRAP, CREATE_ATA, SYNC_NATIVE, CLOSE_TOKEN_ACCOUNT]

  predicate FromNonFeePayerSigner(ctx: Context, x: Instruction)
  {
    exists i :: 1 <= i < |ctx.signers| && ctx.resolve(x, 0) == Some(ctx.signers[i])
  }

  predicate IsSessionWrap(x: Instruction)
  {
    x.program.SystemProgram? && |x.data| >= 4 && FromLe(x.data[0..4]) == 4_000_000
  }

  predicate IsCreateIdempotent(ctx: Context, x: Instruction)
  {
    x.program.AssociatedTokenProgram? && x.data != [] && x.data[0] == 1 && FromNonFeePayerSigner(ctx, x)
  }

  predicate IsSyncNative(x: Instruction) { x.program.TokenProgram? && x.data != [] && x.data[0] == 17 }

  predicate IsCloseAccount(x: Instruction) { x.program.TokenProgram? && x.data != [] && x.data[0] == 9 }

  lemma SignerTemplate(ctx: Context, c: Constraint, x: Instruction)
    requires c.accounts == [AccountConstraint(0, [NonFeePayerSigner], [])]
    ensures Accepts(ctx, c, x) <==>
            && x.program == c.program && FromNonFeePayerSigner(ctx, x)
            && forall d :: d in c.data ==> CheckData(d, x.data, ctx)
  {
    var a := c.accounts[0];
    assert a in c.accounts;
    if ctx.resolve(x, 0).Some? {
      OneInclusion(a, NonFeePayerSigner, ctx.resolve(x, 0).value, ctx);
    }
  }

  lemma TokenTemplates(ctx: Context, x: Instruction)
    ensures Accepts(ctx, SYNC_NATIVE, x) <==> IsSyncNative(x)
    ensures Accepts(ctx, CLOSE_TOKEN_ACCOUNT, x) <==> IsCloseAccount(x)
  {
    assert SYNC_NATIVE.data[0] in SYNC_NATIVE.data;
    assert CLOSE_TOKEN_ACCOUNT.data[0] in CLOSE_TOKEN_ACCOUNT.data;
  }

  lemma FundingTemplates(ctx: Context, x: Instruction)
    ensures Accepts(ctx, SESSION_WRAP, x) <==> IsSessionWrap(x)
    ensures Accepts(ctx, CREATE_ATA, x) <==> IsCreateIdempotent(ctx, x)
  {
    assert SESSION_WRAP.data[0] in SESSION_WRAP.data && CREATE_ATA.data[0] in CREATE_ATA.data;
    SignerTemplate(ctx, CREATE_ATA, x);
  }

  /** What the four wrapping templates mean; no instruction satisfies two of them. */
  lemma WrappingTemplates(ctx: Context, x: Instruction)
    ensures Accepts(ctx, SESSION_WRAP, x) <==> IsSessionWrap(x)
    ensures Accepts(ctx, CREATE_ATA, x) <==> IsCreateIdempotent(ctx, x)
    ensures Accepts(ctx, SYNC_NATIVE, x) <==> IsSyncNative(x)
    ensures Accepts(ctx, CLOSE_TOKEN_ACCOUNT, x) <==> IsCloseAccount(x)
    ensures forall c, d :: c in WRAPPING_TEMPLATES && d in WRAPPING_TEMPLATES && c != d ==>
              !(Accepts(ctx, c, x) && Accepts(ctx, d, x))
  {
    TokenTemplates(ctx, x);
    FundingTemplates(ctx, x);
  }

  // ---------- the expansion at the built-in templates ----------

  /** The expansion of a configured list keeps every alignable transaction, in every context. */
  lemma NativeWrappingKeepsAlignments(ctx: Context, entries: seq<Entry<Constraint>>, xs: seq<Instruction>)
    requires Aligned(RulesIn(ctx), Plain(entries), xs)
    ensures Aligned(RulesIn(ctx), Expand(NATIVE_WRAPPING, entries), xs)
  {
    ExpansionKeepsAlignments(RulesIn(ctx), NATIVE_WRAPPING, entries, xs);
  }

  /**
   * The next required configured constraint accepts a SessionWrap, CreateIdempotent or SyncNative
   * instruction that the templates before entry `i` accept, or a CloseAccount after it.
   */
  predicate NativeClash(ctx: Context, entries: seq<Entry<Constraint>>, i: nat, x: Instruction)
    requires i < |entries|
  {
    entries[i].wrapped &&
    (|| ((IsSessionWrap(x) || IsCreateIdempotent(ctx, x) || IsSyncNative(x))
         && NextRequiredAccepts(RulesIn(ctx), Plain(entries[i..]), x))
     || (IsCloseAccount(x) && NextRequiredAccepts(RulesIn(ctx), Plain(entries[i + 1..]), x)))
  }

  lemma NativeClashIsWrapClash(ctx: Context, entries: seq<Entry<Constraint>>, i: nat, x: Instruction)
    requires i < |entries|
    ensures NativeClash(ctx, entries, i, x) <==> WrapClash(RulesIn(ctx), NATIVE_WRAPPING, entries, i, x)
  {
    WrappingTemplates(ctx, x);
  }

  /**
   * Exactly when the expansion costs greedy no transaction: when the list accepts nothing at all,
   * or when in no stretch up to a required constraint the templates steal what that constraint
   * gets. For a separated list the latter means that no wrapping instruction is one that the
   * next required configured constraint accepts.
   */
  lemma {:induction false} NativeWrappingExact(ctx: Context, entries: seq<Entry<Constraint>>)
    ensures LosesNothing(RulesIn(ctx), Plain(entries), Expand(NATIVE_WRAPPING, entries)) <==>
            || !Satisfiable(RulesIn(ctx), Plain(entries))
            || Harmless(RulesIn(ctx), Marked(NATIVE_WRAPPING, entries))
    ensures Separated(RulesIn(ctx), Plain(entries)) ==>
              (LosesNothing(RulesIn(ctx), Plain(entries), Expand(NATIVE_WRAPPING, entries)) <==>
               || !Satisfiable(RulesIn(ctx), Plain(entries))
               || forall i, x :: 0 <= i < |entries| ==> !NativeClash(ctx, entries, i, x))
  {
    ExpansionExact(RulesIn(ctx), NATIVE_WRAPPING, entries);
    if Separated(RulesIn(ctx), Plain(entries)) {
      SeparatedExpansionExact(RulesIn(ctx), NATIVE_WRAPPING, entries);
      NativeClashFree(ctx, entries);
    }
  }

  lemma {:induction false} NativeClashFree(ctx: Context, entries: seq<Entry<Constraint>>)
    ensures WrapClashFree(RulesIn(ctx), NATIVE_WRAPPING, entries) <==>
            forall i, x :: 0 <= i < |entries| ==> !NativeClash(ctx, entries, i, x)
  {
    forall i, x | 0 <= i < |entries|
      ensures NativeClash(ctx, entries, i, x) <==> WrapClash(RulesIn(ctx), NATIVE_WRAPPING, entries, i, x)
    {
      NativeClashIsWrapClash(ctx, entries, i, x);
    }
  }

  /** Any configured list: every clash with a wrapping instruction loses a transaction greedy accepted before. */
  lemma NativeClashLoses(ctx: Context, entries: seq<Entry<Constraint>>, i: nat, x: Instruction)
    returns (xs: seq<Instruction>)
    requires Satisfiable(RulesIn(ctx), Plain(entries)) && i < |entries| && NativeClash(ctx, entries, i, x)
    ensures Greedy(RulesIn(ctx), Plain(entries), xs)
    ensures !Greedy(RulesIn(ctx), Expand(NATIVE_WRAPPING, entries), xs)
  {
    NativeClashIsWrapClash(ctx, entries, i, x);
    xs := WrapClashLoses(RulesIn(ctx), NATIVE_WRAPPING, entries, i, x);
  }

  /**
   * The greedy matcher can lose transactions by the expansion: a required token-program
   * constraint that accepts anything takes one SyncNative, but its expansion spends that
   * instruction on the optional template and then finds none left.
   */
  lemma NativeWrappingCanLose(ctx: Context)
    ensures var entries := [Entry(Constraint(TokenProgram, [], [], true), true)];
            var xs := [Instruction(TokenProgram, [], [17])];
            && Greedy(RulesIn(ctx), Plain(entries), xs)
            && Aligned(RulesIn(ctx), Expand(NATIVE_WRAPPING, entries), xs)
            && !Greedy(RulesIn(ctx), Expand(NATIVE_WRAPPING, entries), xs)
  {
    var base := Constraint(TokenProgram, [], [], true);
    var entries := [Entry(base, true)];
    var x := Instruction(TokenProgram, [], [17]);
    var m := RulesIn(ctx);
    assert Plain(entries) == [base];
    assert Greedy(m, [base], [x]);
    var f := GreedyIsSound(m, Plain(entries), [x]);
    NativeWrappingKeepsAlignments(ctx, entries, [x]);
    assert entries[1..] == [];
    assert Expand(NATIVE_WRAPPING, entries) == [SESSION_WRAP, CREATE_ATA, SYNC_NATIVE] + [base, CLOSE_TOKEN_ACCOUNT];
    SyncNativeIsTaken(ctx, x, [base, CLOSE_TOKEN_ACCOUNT], []);
    assert [x] + [] == [x];
  }

  /** The templates before a wrapped constraint take a leading SyncNative instruction. */
  lemma SyncNativeIsTaken(ctx: Context, x: Instruction, cs: seq<Constraint>, xs: seq<Instruction>)
    requires IsSyncNative(x)
    ensures Greedy(RulesIn(ctx), [SESSION_WRAP, CREATE_ATA, SYNC_NATIVE] + cs, [x] + xs) <==>
            Greedy(RulesIn(ctx), cs, xs)
  {
    var m := RulesIn(ctx);
    var all := [SESSION_WRAP, CREATE_ATA, SYNC_NATIVE] + cs;
    WrappingTemplates(ctx, x);
    assert all[1..] == [CREATE_ATA, SYNC_NATIVE] + cs;
    assert all[1..][1..] == [SYNC_NATIVE] + cs;
    assert all[1..][1..][1..] == cs && ([x] + xs)[1..] == xs;
    assert Greedy(m, all, [x] + xs) == Greedy(m, all[1..], [x] + xs) == Greedy(m, all[1..][1..], [x] + xs);
  }

  /** A list in which an optional and a required constraint accept the same program. */
  function UnseparatedExample(p: ProgramId): seq<Entry<Constraint>>
  {
    [Entry(Constraint(p, [], [], false), true)] +
    ([Entry(Constraint(TokenProgram, [], [], false), false)] +
     [Entry(Constraint(p, [], [], true), false)])
  }

  lemma ExampleLists(p: ProgramId)
    ensures var a, c, b :=
            Constraint(p, [], [], false), Constraint(TokenProgram, [], [], false), Constraint(p, [], [], true);
            && Plain(UnseparatedExample(p)) == [a, c, b]
            && Expand(NATIVE_WRAPPING, UnseparatedExample(p)) ==
               [SESSION_WRAP, CREATE_ATA, SYNC_NATIVE] + [a, CLOSE_TOKEN_ACCOUNT, c, b]
  {
    var a, c, b := Constraint(p, [], [], false), Constraint(TokenProgram, [], [], false), Constraint(p, [], [], true);
    var last := [Entry(b, false)];
    assert last == last + [];
    ExpandCons(NATIVE_WRAPPING, Entry(b, false), []);
    ExpandCons(NATIVE_WRAPPING, Entry(c, false), last);
    ExpandCons(NATIVE_WRAPPING, Entry(a, true), [Entry(c, false)] + last);
  }

  lemma ExampleRuns(ctx: Context, p: ProgramId)
    requires p.OtherProgram?
    ensures var a, c, b :=
            Constraint(p, [], [], false), Constraint(TokenProgram, [], [], false), Constraint(p, [], [], true);
            var x, y := Instruction(TokenProgram, [], [17]), Instruction(p, [], []);
            && Greedy(RulesIn(ctx), [a, c, b], [x, y])
            && !Greedy(RulesIn(ctx), [a, CLOSE_TOKEN_ACCOUNT, c, b], [y])
  {
    var m := RulesIn(ctx);
    var a, c, b := Constraint(p, [], [], false), Constraint(TokenProgram, [], [], false), Constraint(p, [], [], true);
    var x, y := Instruction(TokenProgram, [], [17]), Instruction(p, [], []);
    assert [a, c, b][1..] == [c, b] && [c, b][1..] == [b] && [b][1..] == [] && [x, y][1..] == [y] && [y][1..] == [];
    assert Greedy(m, [b], [y]) && Greedy(m, [c, b], [x, y]);
    var rest := [a, CLOSE_TOKEN_ACCOUNT, c, b];
    assert rest[1..] == [CLOSE_TOKEN_ACCOUNT, c, b] && rest[1..][1..] == [c, b];
    assert !Greedy(m, [b], []) && !Greedy(m, [c, b], []) && !Greedy(m, rest[1..], []);
  }

  lemma ExampleDoesNotClash(ctx: Context, p: ProgramId, i: nat, z: Instruction)
    requires p.OtherProgram? && i < |UnseparatedExample(p)|
    ensures !NativeClash(ctx, UnseparatedExample(p), i, z)
  {
    var m := RulesIn(ctx);
    var entries := UnseparatedExample(p);
    var a, c, b := Constraint(p, [], [], false), Constraint(TokenProgram, [], [], false), Constraint(p, [], [], true);
    if i == 0 {
      ExampleLists(p);
      assert entries[0..] == entries && Plain(entries) == [a, c, b];
      assert [a, c, b][1..] == [c, b] && Plain(entries[1..]) == [c, b] && [c, b][1..] == [b];
      assert NextRequiredAccepts(m, [a, c, b], z) == NextRequiredAccepts(m, [c, b], z) ==
        NextRequiredAccepts(m, [b], z);
    }
  }

  /**
   * Single instructions do not decide when the configured list itself is not separated: here no
   * wrapping instruction clashes, but a SyncNative taken early lets an optional constraint take
   * what the required constraint for the same program needs.
   */
  lemma UnseparatedCanLoseWithoutClash(ctx: Context, p: ProgramId)
    requires p.OtherProgram?
    ensures var entries := UnseparatedExample(p);
            var xs := [Instruction(TokenProgram, [], [17]), Instruction(p, [], [])];
            && Greedy(RulesIn(ctx), Plain(entries), xs)
            && !Greedy(RulesIn(ctx), Expand(NATIVE_WRAPPING, entries), xs)
            && forall i, x :: 0 <= i < |entries| ==> !NativeClash(ctx, entries, i, x)
  {
    var a, c, b := Constraint(p, [], [], false), Constraint(TokenProgram, [], [], false), Constraint(p, [], [], true);
    var x, y := Instruction(TokenProgram, [], [17]), Instruction(p, [], []);
    ExampleLists(p);
    ExampleRuns(ctx, p);
    SyncNativeIsTaken(ctx, x, [a, CLOSE_TOKEN_ACCOUNT, c, b], [y]);
    assert [x] + [y] == [x, y];
    forall i, z | 0 <= i < |UnseparatedExample(p)| ensures !NativeClash(ctx, UnseparatedExample(p), i, z)
    {
      ExampleDoesNotClash(ctx, p, i, z);
    }
  }

  predicate IntentHeader(x: Instruction)
  {
    && x.program.Ed25519Program? && |x.data| >= 16 && x.data[0] == 1 && x.data[1] == 0
    && FromLe(x.data[4..6]) == U16_MAX && FromLe(x.data[8..10]) == U16_MAX && FromLe(x.data[14..16]) == U16_MAX
  }

  predicate StartsOwnSession(ctx: Context, x: Instruction)
  {
    && x.program.SessionManagerProgram? && x.data != [] && x.data[0] == 0
    && ctx.resolve(x, 0) == Some(ctx.sponsor)
    && (exists i :: 1 <= i < |ctx.signers| && ctx.resolve(x, 2) == Some(ctx.signers[i]))
    && ctx.resolve(x, 4) == Some(ctx.domainRegistry)
  }

  lemma IntentTemplate(ctx: Context, x: Instruction)
    ensures Accepts(ctx, INTENT, x) <==> IntentHeader(x)
  {
    var d := INTENT.data;
    assert d[0] in d && d[1] in d && d[2] in d && d[3] in d && d[4] in d;
  }

  lemma StartTemplate(ctx: Context, x: Instruction)
    ensures Accepts(ctx, START_SESSION, x) <==> StartsOwnSession(ctx, x)
  {
    var a, d := START_SESSION.accounts, START_SESSION.data;
    assert a[0] in a && a[1] in a && a[2] in a && d[0] in d;
    forall key: Pubkey
      ensures CheckAccount(a[0], key, ctx) <==> Names(Sponsor, key, ctx)
      ensures CheckAccount(a[1], key, ctx) <==> Names(NonFeePayerSigner, key, ctx)
      ensures CheckAccount(a[2], key, ctx) <==> Names(DomainRegistry, key, ctx)
    {
      OneInclusion(a[0], Sponsor, key, ctx);
      OneInclusion(a[1], NonFeePayerSigner, key, ctx);
      OneInclusion(a[2], DomainRegistry, key, ctx);
    }
    if Accepts(ctx, START_SESSION, x) {
      assert ctx.resolve(x, a[0].index).Some? && ctx.resolve(x, a[1].index).Some? && ctx.resolve(x, a[2].index).Some?;
    }
  }

  lemma OneInclusion(c: AccountConstraint, p: ContextualPubkey, account: Pubkey, ctx: Context)
    requires c.included == [p] && c.excluded == []
    ensures CheckAccount(c, account, ctx) <==> Names(p, account, ctx)
  {
    assert p in c.included;
  }

  /**
   * The built-in session establishment variation sponsors exactly two substantive instructions:
   * one self-contained signature verification, then a start paid by the sponsor, for a session
   * key that signed, under the domain's own registry record.
   */
  lemma EstablishmentIsExact(ctx: Context, xs: seq<Instruction>)
    ensures Greedy(RulesIn(ctx), [INTENT, START_SESSION], xs) <==>
            |xs| == 2 && IntentHeader(xs[0]) && StartsOwnSession(ctx, xs[1])
  {
    var cs := [INTENT, START_SESSION];
    var m := RulesIn(ctx);
    assert cs[1..] == [START_SESSION] && cs[1..][1..] == [];
    if xs != [] {
      IntentTemplate(ctx, xs[0]);
      if Accepts(ctx, INTENT, xs[0]) {
        assert Greedy(m, cs, xs) == Greedy(m, [START_SESSION], xs[1..]);
        if |xs| > 1 {
          StartTemplate(ctx, xs[1]);
          assert xs[1..][1..] == xs[2..];
          assert [START_SESSION][1..] == [];
          assert Greedy(m, [START_SESSION], xs[1..]) <==> Accepts(ctx, START_SESSION, xs[1]) && xs[2..] == [];
        }
      }
    }
  }

  predicate RevokesOwnSession(ctx: Context, x: Instruction)
  {
    x.program.SessionManagerProgram? && x.data != [] && x.data[0] == 1 && FromNonFeePayerSigner(ctx, x)
  }

  /**
   * The built-in revocation variation sponsors exactly one substantive instruction: a revocation
   * whose session account itself signed, and not as the fee payer.
   */
  lemma RevocationIsExact(ctx: Context, xs: seq<Instruction>)
    ensures Greedy(RulesIn(ctx), [REVOKE_SESSION], xs) <==>
            |xs| == 1 && RevokesOwnSession(ctx, xs[0])
  {
    assert [REVOKE_SESSION][1..] == [] && REVOKE_SESSION.data[0] in REVOKE_SESSION.data;
    if xs != [] {
      SignerTemplate(ctx, REVOKE_SESSION, xs[0]);
    }
  }

  // ---------- the built-in variations on whole transactions ----------

  /** All other instructions belong to the compute budget or the tollbooth. */
  predicate OthersAreFees(xs: seq<Instruction>, kept: set<nat>)
  {
    forall k :: 0 <= k < |xs| && k !in kept ==> xs[k].program.ComputeBudgetProgram? || xs[k].program.TollboothProgram?
  }

  lemma Climbs(p: seq<nat>)
    requires forall i, j :: 0 <= i < j < |p| ==> p[i] < p[j]
    ensures |p| > 1 ==> p[0] < p[1]
    ensures |p| > 2 ==> p[1] < p[2]
  {
  }

  lemma TwoPicked(xs: seq<Instruction>, p: seq<nat>, i: nat, j: nat)
    requires PicksSubstantive(xs, p) && i < j < |xs| && OthersAreFees(xs, {i, j})
    requires IsSubstantive(xs[i]) && IsSubstantive(xs[j])
    ensures |p| == 2 && p[0] == i && p[1] == j
  {
    forall c | 0 <= c < |p| ensures p[c] == i || p[c] == j
    {
      assert p[c] in p;
    }
    assert i in p && j in p;
    Climbs(p);
  }

  predicate EstablishesAt(ctx: Context, xs: seq<Instruction>, i: nat, j: nat)
  {
    && i < j < |xs| && IntentHeader(xs[i]) && StartsOwnSession(ctx, xs[j]) && OthersAreFees(xs, {i, j})
  }

  lemma PickedEstablish(ctx: Context, xs: seq<Instruction>, p: seq<nat>)
    requires PicksSubstantive(xs, p) && |p| == 2 && IntentHeader(xs[p[0]]) && StartsOwnSession(ctx, xs[p[1]])
    ensures EstablishesAt(ctx, xs, p[0], p[1])
  {
    forall k | 0 <= k < |xs| && k !in {p[0], p[1]} ensures k !in p {}
  }

  /** The establishment variation on a whole transaction: an intent, then a start, and besides them fees alone. */
  lemma EstablishesExactly(ctx: Context, xs: seq<Instruction>)
    ensures Greedy(RulesIn(ctx), [INTENT, START_SESSION], Substantive(xs)) <==>
            exists i, j :: 0 <= i < j < |xs| && EstablishesAt(ctx, xs, i, j)
  {
    EstablishmentIsExact(ctx, Substantive(xs));
    var p := SubstantiveIs(xs);
    if |p| == 2 && IntentHeader(xs[p[0]]) && StartsOwnSession(ctx, xs[p[1]]) {
      PickedEstablish(ctx, xs, p);
    }
    if i, j :| 0 <= i < j < |xs| && EstablishesAt(ctx, xs, i, j) {
      TwoPicked(xs, p, i, j);
    }
  }

  /** The revocation variation on a whole transaction: one revocation by its own key, and besides it fees alone. */
  lemma RevokesExactly(ctx: Context, xs: seq<Instruction>)
    ensures Greedy(RulesIn(ctx), [REVOKE_SESSION], Substantive(xs)) <==>
            exists i :: 0 <= i < |xs| && RevokesOwnSession(ctx, xs[i]) && OthersAreFees(xs, {i})
  {
    RevocationIsExact(ctx, Substantive(xs));
    var p := SubstantiveIs(xs);
    if |p| == 1 && RevokesOwnSession(ctx, xs[p[0]]) {
      forall k | 0 <= k < |xs| && k !in {p[0]} ensures k !in p {}
      assert OthersAreFees(xs, {p[0]});
    }
    if i :| 0 <= i < |xs| && RevokesOwnSession(ctx, xs[i]) && OthersAreFees(xs, {i}) {
      OnePicked(xs, p, i);
    }
  }

  lemma OnePicked(xs: seq<Instruction>, p: seq<nat>, i: nat)
    requires PicksSubstantive(xs, p) && i < |xs| && OthersAreFees(xs, {i}) && IsSubstantive(xs[i])
    ensures p == [i]
  {
    forall c | 0 <= c < |p| ensures p[c] == i
    {
      assert p[c] in p;
    }
    assert i in p;
    Climbs(p);
  }

  // ---------- what configured checks mean ----------

  /** The keys a contextual name stands for. */
  function Denoted(p: ContextualPubkey, ctx: Context): set<Pubkey>
  {
    match p
    case Explicit(key) => {key}
    case Sponsor => {ctx.sponsor}
    case NonFeePayerSigner => set i | 1 <= i < |ctx.signers| :: ctx.signers[i]
    case DomainRegistry => {ctx.domainRegistry}
  }

  function DenotedBy(ps: seq<ContextualPubkey>, ctx: Context): set<Pubkey>
  {
    if ps == [] then {} else Denoted(ps[0], ctx) + DenotedBy(ps[1..], ctx)
  }

  lemma {:induction false} DenotedByMember(ps: seq<ContextualPubkey>, account: Pubkey, ctx: Context)
    ensures account in DenotedBy(ps, ctx) <==> exists p :: p in ps && Names(p, account, ctx)
  {
    if ps != [] {
      DenotedByMember(ps[1..], account, ctx);
      assert account in Denoted(ps[0], ctx) <==> Names(ps[0], account, ctx);
      assert forall p :: p in ps <==> p == ps[0] || p in ps[1..];
    }
  }

  /** An account check takes the included keys, or all keys if none are included, less the excluded ones. */
  lemma AccountCheckMeans(c: AccountConstraint, account: Pubkey, ctx: Context)
    ensures CheckAccount(c, account, ctx) <==>
            account !in DenotedBy(c.excluded, ctx) && (c.included == [] || account in DenotedBy(c.included, ctx))
  {
    DenotedByMember(c.excluded, account, ctx);
    DenotedByMember(c.included, account, ctx);
  }

  /** The integer at `start`, in as many bytes, if the data is long enough. */
  function IntegerAt(data: Bytes, start: nat, width: nat): Option<nat>
  {
    if start + width <= |data| then Some(FromLe(data[start..start + width])) else None
  }

  lemma OneByte(data: Bytes, start: nat)
    requires start < |data|
    ensures FromLe(data[start..start + 1]) == data[start]
  {
    assert data[start..start + 1] == [data[start]];
    assert [data[start]][1..] == [];
  }

  /** The integer specification of that many bytes. */
  function IntegerSpec(width: nat, v: ValueConstraint<nat>): DataSpecification
    requires width in {1, 2, 4, 8}
  {
    if width == 1 then U8(v) else if width == 2 then U16(v) else if width == 4 then U32(v) else U64(v)
  }

  /** Integer checks compare the little-endian integer of their width, and refuse data that is too short for it. */
  lemma IntegerCheckMeans(start: nat, width: nat, bound: nat, values: seq<nat>, data: Bytes, ctx: Context)
    requires width in {1, 2, 4, 8}
    ensures var n := IntegerAt(data, start, width);
            && (CheckData(DataConstraint(start, IntegerSpec(width, LessThan(bound))), data, ctx) <==>
                n.Some? && n.value < bound)
            && (CheckData(DataConstraint(start, IntegerSpec(width, GreaterThan(bound))), data, ctx) <==>
                n.Some? && n.value > bound)
            && (CheckData(DataConstraint(start, IntegerSpec(width, EqualTo(values))), data, ctx) <==>
                n.Some? && n.value in values)
            && (CheckData(DataConstraint(start, IntegerSpec(width, Neq(values))), data, ctx) <==>
                n.Some? && n.value !in values)
  {
    if width == 1 && start < |data| {
      OneByte(data, start);
    }
  }

  /**
   * Byte checks compare the bytes at `start`: one as a flag, 32 as a key, as many as are named, or
   * a signed quote's signer.
   */
  lemma BytesCheckMeans(start: nat, length: nat, flags: seq<bool>, values: seq<Bytes>, data: Bytes, ctx: Context)
    ensures CheckData(DataConstraint(start, Bool(OneOf(flags))), data, ctx) <==>
            start < |data| && (data[start] != 0) in flags
    ensures CheckData(DataConstraint(start, Bool(NoneOf(flags))), data, ctx) <==>
            start < |data| && (data[start] != 0) !in flags
    ensures CheckData(DataConstraint(start, Key(OneOf(values))), data, ctx) <==>
            start + 32 <= |data| && data[start..start + 32] in values
    ensures CheckData(DataConstraint(start, Key(NoneOf(values))), data, ctx) <==>
            start + 32 <= |data| && data[start..start + 32] !in values
    ensures CheckData(DataConstraint(start, Raw(length, OneOf(values))), data, ctx) <==>
            start + length <= |data| && data[start..start + length] in values
    ensures CheckData(DataConstraint(start, Raw(length, NoneOf(values))), data, ctx) <==>
            start + length <= |data| && data[start..start + length] !in values
    ensures CheckData(DataConstraint(start, NttSignedQuoter(OneOf(values))), data, ctx) <==>
            start + 165 <= |data| && exists q :: ctx.recoverQuoter(data[start..start + 165]) == Some(q) && q in values
    ensures CheckData(DataConstraint(start, NttSignedQuoter(NoneOf(values))), data, ctx) <==>
            start + 165 <= |data| && exists q :: ctx.recoverQuoter(data[start..start + 165]) == Some(q) && q !in values
  {
  }
}
