/**
 * The paymaster's gas check: what saturating 64-bit arithmetic computes, and exactly when
 * that decides as the exact amounts do.
 */
module Gas {
  import opened Common
  import opened Constraints

  const DEFAULT_COMPUTE_UNIT_LIMIT := 200_000
  const LAMPORTS_PER_SIGNATURE := 5000
  const MICRO_LAMPORTS := 1_000_000

  // ---------- compute-budget instructions ----------

  datatype BudgetInstruction =
    | Unused
    | RequestHeapFrame
    | SetComputeUnitLimit(units: U32)
    | SetComputeUnitPrice(microLamports: U64)
    | SetLoadedAccountsDataSizeLimit

  /** A tag byte and its operand, with no bytes to spare. */
  function ParseBudget(data: Bytes): Option<BudgetInstruction>
  {
    if data == [] then None
    else
      var operand := data[1..];
      FromLeBound(operand);
      Widths();
      match data[0]
      case 0 => if operand == [] then Some(Unused) else None
      case 1 => if |operand| == 4 then Some(RequestHeapFrame) else None
      case 2 => if |operand| == 4 then Some(SetComputeUnitLimit(FromLe(operand))) else None
      case 3 => if |operand| == 8 then Some(SetComputeUnitPrice(FromLe(operand))) else None
      case 4 => if |operand| == 4 then Some(SetLoadedAccountsDataSizeLimit) else None
      case _ => None
  }

  /** Exactly the data that parses: a tag, then an operand of the tag's width. */
  lemma BudgetsParseExactly(data: Bytes, units: U32, price: U64)
    ensures ParseBudget(data) == Some(Unused) <==> data == [0]
    ensures ParseBudget(data) == Some(RequestHeapFrame) <==> |data| == 5 && data[0] == 1
    ensures ParseBudget(data) == Some(SetComputeUnitLimit(units)) <==> data == [2] + Le(units, 4)
    ensures ParseBudget(data) == Some(SetComputeUnitPrice(price)) <==> data == [3] + Le(price, 8)
    ensures ParseBudget(data) == Some(SetLoadedAccountsDataSizeLimit) <==> |data| == 5 && data[0] == 4
    ensures ParseBudget(data) == None <==>
            && data != [0] && !(|data| == 5 && data[0] in {1, 2, 4}) && !(|data| == 9 && data[0] == 3)
  {
    Widths();
    LeRoundTrip(units, 4);
    LeRoundTrip(price, 8);
    if data != [] {
      assert data == [data[0]] + data[1..];
      LeOfFromLe(data[1..]);
    }
  }

  datatype BudgetError = Multiple(kind: BudgetInstruction) | UnusedInstruction | InvalidData

  /**
   * The operands of the compute-budget instructions of a transaction, in order; `None` marks one
   * that does not parse.
   */
  function Budget(xs: seq<Instruction>): seq<Option<BudgetInstruction>>
  {
    if xs == [] then []
    else (if xs[0].program.ComputeBudgetProgram? then [ParseBudget(xs[0].data)] else []) + Budget(xs[1..])
  }

  predicate SameKind(a: BudgetInstruction, b: BudgetInstruction)
  {
    match a
    case Unused => b.Unused?
    case RequestHeapFrame => b.RequestHeapFrame?
    case SetComputeUnitLimit(_) => b.SetComputeUnitLimit?
    case SetComputeUnitPrice(_) => b.SetComputeUnitPrice?
    case SetLoadedAccountsDataSizeLimit => b.SetLoadedAccountsDataSizeLimit?
  }

  /** Every instruction parses, none is the unused one, and no two are of one kind. */
  predicate WellFormed(bs: seq<Option<BudgetInstruction>>)
  {
    && (forall i :: 0 <= i < |bs| ==> bs[i].Some? && !bs[i].value.Unused?)
    && (forall i, j :: 0 <= i < j < |bs| ==> bs[i].Some? && bs[j].Some? && !SameKind(bs[i].value, bs[j].value))
  }

  /** The first compute-unit limit and price that are set, if any are. */
  function Limit(bs: seq<Option<BudgetInstruction>>): Option<U32>
  {
    if bs == [] then None
    else if bs[0].Some? && bs[0].value.SetComputeUnitLimit? then Some(bs[0].value.units)
    else Limit(bs[1..])
  }

  function Price(bs: seq<Option<BudgetInstruction>>): Option<U64>
  {
    if bs == [] then None
    else if bs[0].Some? && bs[0].value.SetComputeUnitPrice? then Some(bs[0].value.microLamports)
    else Price(bs[1..])
  }

  /** The variables of the scan: an option or a flag per kind. */
  datatype Scan = Scan(limit: Option<U32>, price: Option<U64>, heapFrame: bool, sizeLimit: bool)

  predicate Taken(scan: Scan, b: BudgetInstruction)
  {
    match b
    case Unused => true
    case RequestHeapFrame => scan.heapFrame
    case SetComputeUnitLimit(_) => scan.limit.Some?
    case SetComputeUnitPrice(_) => scan.price.Some?
    case SetLoadedAccountsDataSizeLimit => scan.sizeLimit
  }

  function ScanOne(scan: Scan, parsed: Option<BudgetInstruction>): Result<Scan, BudgetError>
  {
    if parsed.None? then Err(InvalidData)
    else if parsed.value.Unused? then Err(UnusedInstruction)
    else if Taken(scan, parsed.value) then Err(Multiple(parsed.value))
    else
      match parsed.value
      case SetComputeUnitLimit(units) => Ok(scan.(limit := Some(units)))
      case SetComputeUnitPrice(micro) => Ok(scan.(price := Some(micro)))
      case RequestHeapFrame => Ok(scan.(heapFrame := true))
      case _ => Ok(scan.(sizeLimit := true))
  }

  function ScanAll(scan: Scan, bs: seq<Option<BudgetInstruction>>): Result<Scan, BudgetError>
    decreases |bs|
  {
    if bs == [] then Ok(scan)
    else
      var next :- ScanOne(scan, bs[0]);
      ScanAll(next, bs[1..])
  }

  /** The scan succeeds exactly on well-formed budgets that clash with nothing seen before, and finds their operands. */
  lemma {:induction false} ScanFinds(scan: Scan, bs: seq<Option<BudgetInstruction>>)
    ensures ScanAll(scan, bs).Ok? <==>
            WellFormed(bs) && forall i :: 0 <= i < |bs| ==> bs[i].Some? && !Taken(scan, bs[i].value)
    ensures ScanAll(scan, bs).Ok? ==>
            var end := ScanAll(scan, bs).value;
            && end.limit == (if scan.limit.Some? then scan.limit else Limit(bs))
            && end.price == (if scan.price.Some? then scan.price else Price(bs))
    decreases |bs|
  {
    if bs != [] {
      var rest := bs[1..];
      assert forall i :: 0 < i < |bs| ==> bs[i] == rest[i - 1];
      assert forall i :: 0 <= i < |rest| ==> rest[i] == bs[i + 1];
      if ScanOne(scan, bs[0]).Ok? {
        var next := ScanOne(scan, bs[0]).value;
        ScanFinds(next, rest);
        assert forall b: BudgetInstruction :: !b.Unused? ==>
          (Taken(next, b) <==> Taken(scan, b) || SameKind(bs[0].value, b));
      }
    }
  }

  /** In a well-formed budget the limit and the price are the operands of the one instruction that sets each. */
  lemma {:induction false} OperandsAre(bs: seq<Option<BudgetInstruction>>, units: U32, price: U64)
    requires WellFormed(bs)
    ensures Limit(bs) == Some(units) <==> Some(SetComputeUnitLimit(units)) in bs
    ensures Price(bs) == Some(price) <==> Some(SetComputeUnitPrice(price)) in bs
  {
    if bs != [] {
      var rest := bs[1..];
      assert forall i :: 0 <= i < |rest| ==> rest[i] == bs[i + 1];
      OperandsAre(rest, units, price);
      assert forall b :: b in bs <==> b == bs[0] || b in rest;
      assert forall b :: b in rest ==> b.Some? && !SameKind(bs[0].value, b.value);
    }
  }

  /** Why the scan stops at instruction `i`, everything before it being in order. */
  predicate Offends(bs: seq<Option<BudgetInstruction>>, i: nat, error: BudgetError)
  {
    && i < |bs| && WellFormed(bs[..i])
    && match error
       case InvalidData => bs[i].None?
       case UnusedInstruction => bs[i] == Some(Unused)
       case Multiple(kind) =>
         bs[i] == Some(kind) && exists j :: 0 <= j < i && bs[j].Some? && SameKind(bs[j].value, kind)
  }

  lemma {:induction false} ScanPrefix(scan: Scan, bs: seq<Option<BudgetInstruction>>, last: Option<BudgetInstruction>)
    requires ScanAll(scan, bs).Ok?
    ensures ScanAll(scan, bs + [last]) == ScanOne(ScanAll(scan, bs).value, last)
    decreases |bs|
  {
    if bs == [] {
      assert [last][1..] == [];
    } else {
      assert (bs + [last])[1..] == bs[1..] + [last];
      ScanPrefix(ScanOne(scan, bs[0]).value, bs[1..], last);
    }
  }

  lemma {:induction false} ScanTakes(scan: Scan, bs: seq<Option<BudgetInstruction>>, b: BudgetInstruction)
    requires ScanAll(scan, bs).Ok? && !b.Unused?
    ensures Taken(ScanAll(scan, bs).value, b) <==>
            Taken(scan, b) || exists j :: 0 <= j < |bs| && bs[j].Some? && SameKind(bs[j].value, b)
    decreases |bs|
  {
    if bs != [] {
      var next := ScanOne(scan, bs[0]).value;
      assert Taken(next, b) <==> Taken(scan, b) || SameKind(bs[0].value, b);
      ScanTakes(next, bs[1..], b);
      assert forall j :: 0 < j < |bs| ==> bs[j] == bs[1..][j - 1];
      assert forall j :: 0 <= j < |bs| - 1 ==> bs[1..][j] == bs[j + 1];
    }
  }

  lemma ScanOffends(bs: seq<Option<BudgetInstruction>>, i: nat, error: BudgetError)
    requires i < |bs| && ScanAll(EMPTY_SCAN, bs[..i]).Ok?
    requires ScanOne(ScanAll(EMPTY_SCAN, bs[..i]).value, bs[i]) == Err(error)
    ensures Offends(bs, i, error)
  {
    ScanFinds(EMPTY_SCAN, bs[..i]);
    if error.Multiple? {
      ScanTakes(EMPTY_SCAN, bs[..i], bs[i].value);
      assert forall j :: 0 <= j < i ==> bs[..i][j] == bs[j];
    }
  }

  const EMPTY_SCAN := Scan(None, None, false, false)

  lemma ScanOneMore(bs: seq<Option<BudgetInstruction>>, k: nat)
    requires k < |bs| && ScanAll(EMPTY_SCAN, bs[..k]).Ok?
    ensures ScanAll(EMPTY_SCAN, bs[..k + 1]) == ScanOne(ScanAll(EMPTY_SCAN, bs[..k]).value, bs[k])
  {
    assert bs[..k + 1] == bs[..k] + [bs[k]];
    ScanPrefix(EMPTY_SCAN, bs[..k], bs[k]);
  }

  /** The budget of the instructions from `i` on, when instruction `i` is one more or is none. */
  lemma BudgetFrom(xs: seq<Instruction>, i: nat, k: nat)
    requires i < |xs| && k <= |Budget(xs)| && Budget(xs)[k..] == Budget(xs[i..])
    ensures xs[i].program.ComputeBudgetProgram? ==>
              && k < |Budget(xs)| && Budget(xs)[k] == ParseBudget(xs[i].data)
              && Budget(xs)[k + 1..] == Budget(xs[i + 1..])
    ensures !xs[i].program.ComputeBudgetProgram? ==> Budget(xs)[k..] == Budget(xs[i + 1..])
  {
    assert xs[i..][0] == xs[i] && xs[i..][1..] == xs[i + 1..];
    if xs[i].program.ComputeBudgetProgram? {
      assert Budget(xs[i..]) == [ParseBudget(xs[i].data)] + Budget(xs[i + 1..]);
      assert Budget(xs)[k] == Budget(xs)[k..][0];
      assert Budget(xs)[k + 1..] == Budget(xs)[k..][1..];
    } else {
      assert Budget(xs[i..]) == [] + Budget(xs[i + 1..]) == Budget(xs[i + 1..]);
    }
  }

  /** The loop over all instructions of the transaction. */
  method ProcessComputeBudget(xs: seq<Instruction>) returns (r: Result<U64, BudgetError>)
    ensures r.Ok? <==> WellFormed(Budget(xs))
    ensures r.Ok? ==> r.value == PriorityFee(Limit(Budget(xs)), Price(Budget(xs)))
    ensures r.Err? ==> exists i :: Offends(Budget(xs), i, r.error)
  {
    var scan := EMPTY_SCAN;
    ghost var bs, k := Budget(xs), 0;
    assert xs[0..] == xs && bs[0..] == bs;
    for i := 0 to |xs|
      invariant k <= |bs| && bs[k..] == Budget(xs[i..])
      invariant ScanAll(EMPTY_SCAN, bs[..k]) == Ok(scan)
    {
      BudgetFrom(xs, i, k);
      if xs[i].program.ComputeBudgetProgram? {
        ScanOneMore(bs, k);
        var next := ScanOne(scan, ParseBudget(xs[i].data));
        if next.Err? {
          ScanOffends(bs, k, next.error);
          return Err(next.error);
        }
        scan, k := next.value, k + 1;
      }
    }
    assert bs[..k] == bs;
    ScanFinds(EMPTY_SCAN, bs);
    r := Ok(PriorityFee(scan.limit, scan.price));
  }

  function OrDefault(limit: Option<U32>): U32 { if limit.Some? then limit.value else DEFAULT_COMPUTE_UNIT_LIMIT }

  function OrZero(price: Option<U64>): U64 { if price.Some? then price.value else 0 }

  function PriorityFee(limit: Option<U32>, price: Option<U64>): U64
  {
    SatMul(OrDefault(limit), OrZero(price)) / MICRO_LAMPORTS
  }

  // ---------- signatures ----------

  const PRECOMPILE_SIGNATURE_PROGRAMS := [Ed25519Program, Secp256k1Program, Secp256r1Program]

  /** The signatures one instruction verifies: a precompile gives their number in its first byte. */
  function Signatures(x: Instruction): nat
  {
    if x.data == [] then 0
    else
      match x.program
      case Ed25519Program => x.data[0]
      case Secp256k1Program => x.data[0]
      case Secp256r1Program => x.data[0]
      case _ => 0
  }

  function ExactSignatures(xs: seq<Instruction>): nat
  {
    if xs == [] then 0 else Signatures(xs[0]) + ExactSignatures(xs[1..])
  }

  /** One instruction counts the first byte of its data if its program is one of the three, and nothing otherwise. */
  lemma OneCounts(x: Instruction)
    ensures ExactSignatures([x]) ==
            if x.data != [] && x.program in {Ed25519Program, Secp256k1Program, Secp256r1Program} then x.data[0] else 0
  {
    assert [x][1..] == [];
  }

  /** And a transaction counts what its parts count. */
  lemma {:induction false} SignaturesAdd(xs: seq<Instruction>, ys: seq<Instruction>)
    ensures ExactSignatures(xs + ys) == ExactSignatures(xs) + ExactSignatures(ys)
  {
    if xs == [] {
      assert xs + ys == ys;
    } else {
      assert (xs + ys)[1..] == xs[1..] + ys;
      SignaturesAdd(xs[1..], ys);
    }
  }

  method CountPrecompileSignatures(xs: seq<Instruction>) returns (n: U64)
    ensures n == Min(ExactSignatures(xs), U64_MAX)
  {
    n := 0;
    assert xs[0..] == xs;
    for i := 0 to |xs|
      invariant Min(n + ExactSignatures(xs[i..]), U64_MAX) == Min(ExactSignatures(xs), U64_MAX)
    {
      assert xs[i..][1..] == xs[i + 1..];
      if xs[i].program in PRECOMPILE_SIGNATURE_PROGRAMS {
        n := SatAdd(n, if xs[i].data == [] then 0 else xs[i].data[0]);
      }
    }
  }

  // ---------- the gas check ----------

  datatype Transaction = Transaction(signatures: U64, instructions: seq<Instruction>)

  /** Five thousand lamports a signature, and the priority fee in whole lamports, without a bound. */
  function ExactGas(t: Transaction): nat
    requires WellFormed(Budget(t.instructions))
  {
    var b := Budget(t.instructions);
    var limit := if Limit(b).Some? then Limit(b).value else 200_000;
    var price := if Price(b).Some? then Price(b).value else 0;
    Product(limit, price);
    (t.signatures + ExactSignatures(t.instructions)) * 5_000 + limit * price / 1_000_000
  }

  /** The gas the paymaster computes, in saturating arithmetic. */
  function GasSpend(t: Transaction): U64
    requires WellFormed(Budget(t.instructions))
  {
    var signatures := SatAdd(t.signatures, Min(ExactSignatures(t.instructions), U64_MAX));
    SatAdd(SatMul(signatures, LAMPORTS_PER_SIGNATURE),
      PriorityFee(Limit(Budget(t.instructions)), Price(Budget(t.instructions))))
  }

  method ComputeGasSpend(t: Transaction) returns (r: Result<U64, BudgetError>)
    ensures r.Ok? <==> WellFormed(Budget(t.instructions))
    ensures r.Ok? ==> r.value == GasSpend(t)
    ensures r.Err? ==> exists i :: Offends(Budget(t.instructions), i, r.error)
  {
    var precompile := CountPrecompileSignatures(t.instructions);
    var n := SatAdd(t.signatures, precompile);
    var fee :- ProcessComputeBudget(t.instructions);
    r := Ok(SatAdd(SatMul(n, LAMPORTS_PER_SIGNATURE), fee));
  }

  predicate WithinMaximum(t: Transaction, maximum: U64)
    requires WellFormed(Budget(t.instructions))
  {
    GasSpend(t) <= maximum
  }

  /** The largest fee that survives the saturating product: past it, overflow and a large fee look alike. */
  const SATURATED_FEE := U64_MAX / MICRO_LAMPORTS

  lemma GasCheckAgrees(t: Transaction, maximum: U64)
    requires WellFormed(Budget(t.instructions))
    requires maximum < SATURATED_FEE
    ensures WithinMaximum(t, maximum) <==> ExactGas(t) <= maximum
  {
    var b := Budget(t.instructions);
    var product := OrDefault(Limit(b)) * OrZero(Price(b));
    Product(OrDefault(Limit(b)), OrZero(Price(b)));
    assert product > U64_MAX ==> product / MICRO_LAMPORTS >= SATURATED_FEE;
  }

  const LARGEST_LIMIT := Instruction(ComputeBudgetProgram, [], [2] + Le(U32_MAX, 4))
  const LARGEST_PRICE := Instruction(ComputeBudgetProgram, [], [3] + Le(U64_MAX, 8))

  lemma LargestOperands()
    ensures ParseBudget(LARGEST_LIMIT.data) == Some(SetComputeUnitLimit(U32_MAX))
    ensures ParseBudget(LARGEST_PRICE.data) == Some(SetComputeUnitPrice(U64_MAX))
  {
    Widths();
    LeRoundTrip(U32_MAX, 4);
    LeRoundTrip(U64_MAX, 8);
    assert LARGEST_LIMIT.data[1..] == Le(U32_MAX, 4) && LARGEST_PRICE.data[1..] == Le(U64_MAX, 8);
  }

  /** A transaction without signatures whose product overflows: the check sees only the saturated fee. */
  lemma OverflowingPrice(t: Transaction)
    requires t == Transaction(0, [LARGEST_LIMIT, LARGEST_PRICE])
    ensures WellFormed(Budget(t.instructions))
    ensures GasSpend(t) == SATURATED_FEE && ExactGas(t) > U64_MAX
  {
    LargestBudget(t.instructions);
    var b := Budget(t.instructions);
    assert b[1..] == [b[1]];
    assert Limit(b) == Some(U32_MAX) && Price(b) == Price(b[1..]) == Some(U64_MAX);
  }

  lemma LargestBudget(xs: seq<Instruction>)
    requires xs == [LARGEST_LIMIT, LARGEST_PRICE]
    ensures Budget(xs) == [Some(SetComputeUnitLimit(U32_MAX)), Some(SetComputeUnitPrice(U64_MAX))]
    ensures ExactSignatures(xs) == 0
  {
    var last := [LARGEST_PRICE];
    LargestOperands();
    assert xs[1..] == last && last[1..] == [];
    assert Budget(last) == [Some(SetComputeUnitPrice(U64_MAX))] + [];
    assert ExactSignatures(xs) == ExactSignatures(last) == ExactSignatures(last[1..]) == 0;
  }

  /**
   * The saturating check is the exact check on every transaction exactly when the maximum is below
   * the saturated fee.
   */
  lemma GasCheckExactly(maximum: U64)
    ensures (forall t: Transaction :: WellFormed(Budget(t.instructions)) ==>
            (WithinMaximum(t, maximum) <==> ExactGas(t) <= maximum))
            <==> maximum < SATURATED_FEE
  {
    if maximum < SATURATED_FEE {
      forall t: Transaction | WellFormed(Budget(t.instructions))
        ensures WithinMaximum(t, maximum) <==> ExactGas(t) <= maximum
      {
        GasCheckAgrees(t, maximum);
      }
    } else {
      var t := Transaction(0, [LARGEST_LIMIT, LARGEST_PRICE]);
      OverflowingPrice(t);
      assert WithinMaximum(t, maximum) && !(ExactGas(t) <= maximum);
    }
  }
}
