/** Paymaster fees: tolls weighted per mint, summed in saturating arithmetic, and the quote for paying them. */
module Fees {
  import opened Common
  import opened Constraints

  datatype FeeError = TooShort | WrongDiscriminator | InvalidToll | UnresolvedMint

  const MINT_INDEX := 4
  const PAY_TOLL_DISCRIMINATOR: byte := 0

  /** How mints are found and what a unit of each is worth; a mint without a coefficient is worth nothing. */
  datatype Rates = Rates(resolve: (Instruction, nat) -> Option<Pubkey>, coefficients: map<Pubkey, U64>)

  /** The discriminator, a 64-bit amount and a recipient byte, and nothing after them. */
  function ParsePayToll(data: Bytes): Result<U64, FeeError>
  {
    if data == [] then Err(TooShort)
    else if data[0] != PAY_TOLL_DISCRIMINATOR then Err(WrongDiscriminator)
    else if |data| != 10 then Err(InvalidToll)
    else
      FromLeBound(data[1..9]);
      Widths();
      Ok(FromLe(data[1..9]))
  }

  /** Exactly the data of a toll parse: the discriminator, the amount in eight bytes, a recipient byte. */
  lemma TollsParseExactly(data: Bytes, amount: U64)
    ensures ParsePayToll(data) == Ok(amount) <==> exists r: byte :: data == [0] + Le(amount, 8) + [r]
    ensures ParsePayToll(data) == Err(TooShort) <==> data == []
    ensures ParsePayToll(data) == Err(WrongDiscriminator) <==> data != [] && data[0] != 0
    ensures ParsePayToll(data) == Err(InvalidToll) <==> data != [] && data[0] == 0 && |data| != 10
  {
    Widths();
    LeRoundTrip(amount, 8);
    if |data| == 10 {
      LeOfFromLe(data[1..9]);
      if ParsePayToll(data) == Ok(amount) {
        assert data == [0] + Le(amount, 8) + [data[9]];
      }
    }
    if r: byte :| data == [0] + Le(amount, 8) + [r] {
      assert data[1..9] == Le(amount, 8);
    }
  }

  function Coefficient(rates: Rates, mint: Pubkey): U64
  {
    if mint in rates.coefficients then rates.coefficients[mint] else 0
  }

  /** What one instruction pays, exactly; its mint is its fifth account. */
  function Contribution(rates: Rates, x: Instruction): Result<nat, FeeError>
  {
    if !x.program.TollboothProgram? then Ok(0)
    else
      var amount :- ParsePayToll(x.data);
      if rates.resolve(x, 4).None? then Err(UnresolvedMint)
      else
        var c := Coefficient(rates, rates.resolve(x, 4).value);
        Product(amount, c);
        Ok(amount * c)
  }

  ghost predicate AllReadable(rates: Rates, xs: seq<Instruction>)
  {
    forall x :: x in xs ==> Contribution(rates, x).Ok?
  }

  ghost function ExactFees(rates: Rates, xs: seq<Instruction>): nat
    requires AllReadable(rates, xs)
  {
    if xs == [] then 0 else
      assert xs[0] in xs;
      Contribution(rates, xs[0]).value + ExactFees(rates, xs[1..])
  }

  lemma FeesStep(rates: Rates, xs: seq<Instruction>)
    requires xs != []
    ensures AllReadable(rates, xs) <==> Contribution(rates, xs[0]).Ok? && AllReadable(rates, xs[1..])
    ensures AllReadable(rates, xs) ==>
            ExactFees(rates, xs) == Contribution(rates, xs[0]).value + ExactFees(rates, xs[1..])
  {
    assert xs == [xs[0]] + xs[1..];
  }

  lemma OneMoreReadable(rates: Rates, xs: seq<Instruction>, i: nat)
    requires i < |xs| && AllReadable(rates, xs[..i]) && Contribution(rates, xs[i]).Ok?
    ensures AllReadable(rates, xs[..i + 1])
  {
    assert xs[..i + 1] == xs[..i] + [xs[i]];
  }

  /** The first instruction that cannot be read decides the error. */
  ghost predicate FirstUnreadable(rates: Rates, xs: seq<Instruction>, i: nat, error: FeeError)
  {
    i < |xs| && AllReadable(rates, xs[..i]) && Contribution(rates, xs[i]) == Err(error)
  }

  method ComputePaymasterFees(rates: Rates, xs: seq<Instruction>) returns (r: Result<U64, FeeError>)
    ensures r.Ok? <==> AllReadable(rates, xs)
    ensures r.Ok? ==> r.value == Min(ExactFees(rates, xs), U64_MAX)
    ensures r.Err? ==> exists i :: FirstUnreadable(rates, xs, i, r.error)
  {
    var total: U64 := 0;
    assert xs[0..] == xs;
    for i := 0 to |xs|
      invariant AllReadable(rates, xs[..i])
      invariant AllReadable(rates, xs) <==> AllReadable(rates, xs[i..])
      invariant AllReadable(rates, xs) ==>
                Min(total + ExactFees(rates, xs[i..]), U64_MAX) == Min(ExactFees(rates, xs), U64_MAX)
    {
      var x := xs[i];
      assert !x.program.TollboothProgram? ==> Contribution(rates, x) == Ok(0);
      FeesStep(rates, xs[i..]);
      assert xs[i..][1..] == xs[i + 1..];
      if x.program.TollboothProgram? {
        var amount := ParsePayToll(x.data);
        if amount.Err? {
          assert FirstUnreadable(rates, xs, i, amount.error);
          return Err(amount.error);
        }
        var mint := rates.resolve(x, MINT_INDEX);
        if mint.None? {
          assert FirstUnreadable(rates, xs, i, UnresolvedMint);
          return Err(UnresolvedMint);
        }
        var paid := SatMul(amount.value, Coefficient(rates, mint.value));
        assert paid == Min(Contribution(rates, x).value, U64_MAX);
        total := SatAdd(total, paid);
      }
      OneMoreReadable(rates, xs, i);
    }
    r := Ok(total);
  }

  // ---------- order does not matter ----------

  lemma {:induction false} FeesWithout(rates: Rates, xs: seq<Instruction>, k: nat)
    requires AllReadable(rates, xs) && k < |xs|
    ensures AllReadable(rates, xs[..k] + xs[k + 1..]) && xs[k] in xs
    ensures ExactFees(rates, xs) == Contribution(rates, xs[k]).value + ExactFees(rates, xs[..k] + xs[k + 1..])
    decreases |xs|
  {
    var without := xs[..k] + xs[k + 1..];
    if k == 0 {
      assert without == xs[1..];
    } else {
      FeesWithout(rates, xs[1..], k - 1);
      assert without[1..] == xs[1..][..k - 1] + xs[1..][k..];
      assert without[0] == xs[0];
    }
  }

  /** Taking the first element of one permutation out of the other leaves permutations of each other. */
  lemma TakeOut<T>(xs: seq<T>, ys: seq<T>) returns (k: nat)
    requires xs != [] && multiset(xs) == multiset(ys)
    ensures k < |ys| && ys[k] == xs[0]
    ensures multiset(xs[1..]) == multiset(ys[..k] + ys[k + 1..])
  {
    assert xs[0] in multiset(ys);
    k :| 0 <= k < |ys| && ys[k] == xs[0];
    assert ys == ys[..k] + [ys[k]] + ys[k + 1..];
    assert xs == [xs[0]] + xs[1..];
    var without := ys[..k] + ys[k + 1..];
    forall e ensures multiset(xs[1..])[e] == multiset(without)[e]
    {
      assert multiset(xs)[e] == multiset{xs[0]}[e] + multiset(xs[1..])[e];
      assert multiset(ys)[e] == multiset{xs[0]}[e] + multiset(without)[e];
    }
  }

  lemma SameMembers<T>(xs: seq<T>, ys: seq<T>)
    requires multiset(xs) == multiset(ys)
    ensures forall x :: x in xs <==> x in ys
    ensures |xs| == |ys|
  {
    forall x ensures x in xs <==> x in ys
    {
      assert x in multiset(xs) <==> x in multiset(ys);
    }
    assert |multiset(xs)| == |multiset(ys)|;
  }

  /** Permuting the instructions changes neither whether the fees can be read nor their total. */
  lemma {:induction false} FeesOfPermutation(rates: Rates, xs: seq<Instruction>, ys: seq<Instruction>)
    requires multiset(xs) == multiset(ys)
    ensures AllReadable(rates, xs) <==> AllReadable(rates, ys)
    ensures AllReadable(rates, xs) ==> ExactFees(rates, xs) == ExactFees(rates, ys)
    decreases |xs|
  {
    SameMembers(xs, ys);
    if xs != [] && AllReadable(rates, xs) {
      var k := TakeOut(xs, ys);
      FeesWithout(rates, ys, k);
      FeesOfPermutation(rates, xs[1..], ys[..k] + ys[k + 1..]);
    }
  }

  // ---------- the quote ----------

  /** Rust's `div_ceil`; a zero coefficient panics. */
  function DivCeil(a: U64, b: U64): U64
    requires b > 0
  {
    if a % b == 0 then a / b else a / b + 1
  }

  lemma {:induction false} NothingElsePays(rates: Rates, xs: seq<Instruction>)
    requires forall x :: x in xs ==> !x.program.TollboothProgram?
    ensures AllReadable(rates, xs) && ExactFees(rates, xs) == 0
  {
    if xs != [] {
      NothingElsePays(rates, xs[1..]);
    }
  }

  lemma CeilIsLeast(amount: nat, c: nat, fee: nat)
    requires c > 0
    ensures amount * c >= fee <==> amount >= (if fee % c == 0 then fee / c else fee / c + 1)
  {
    var q, r := fee / c, fee % c;
    assert fee == q * c + r;
    if amount >= q + 1 {
      assert amount * c == (q + 1) * c + (amount - (q + 1)) * c;
      assert (q + 1) * c == q * c + c;
      Product(amount - (q + 1), c);
    } else if amount < q {
      assert q * c == (amount + 1) * c + (q - (amount + 1)) * c;
      assert (amount + 1) * c == amount * c + c;
      Product(q - (amount + 1), c);
    }
  }

  /** What a toll pays: its amount times the coefficient of its mint, or nothing without one. */
  lemma TollPays(rates: Rates, toll: Instruction, mint: Pubkey, amount: U64)
    requires toll.program.TollboothProgram? && exists r: byte :: toll.data == [0] + Le(amount, 8) + [r]
    requires rates.resolve(toll, 4) == Some(mint)
    ensures Contribution(rates, toll) ==
            Ok(if mint in rates.coefficients then amount * rates.coefficients[mint] else 0)
  {
    TollsParseExactly(toll.data, amount);
  }

  lemma OnlyTollPays(rates: Rates, before: seq<Instruction>, toll: Instruction, after: seq<Instruction>)
    requires forall x :: x in before + after ==> !x.program.TollboothProgram?
    requires Contribution(rates, toll).Ok?
    ensures AllReadable(rates, before + [toll] + after)
    ensures ExactFees(rates, before + [toll] + after) == Contribution(rates, toll).value
  {
    var xs := before + [toll] + after;
    forall x | x in xs ensures Contribution(rates, x).Ok?
    {
      assert x in before + after || x == toll;
    }
    FeesWithout(rates, xs, |before|);
    assert xs[..|before|] + xs[|before| + 1..] == before + after && xs[|before|] == toll;
    NothingElsePays(rates, before + after);
  }

  /**
   * A transaction with a single toll meets the variation's fee exactly when the toll is at least the
   * quoted amount; a toll in a mint without a coefficient pays nothing.
   */
  lemma QuoteIsExact(rates: Rates, before: seq<Instruction>, toll: Instruction, after: seq<Instruction>,
    mint: Pubkey, amount: U64, fee: U64)
    requires forall x :: x in before + after ==> !x.program.TollboothProgram?
    requires toll.program.TollboothProgram? && exists r: byte :: toll.data == [0] + Le(amount, 8) + [r]
    requires rates.resolve(toll, 4) == Some(mint)
    ensures var xs := before + [toll] + after;
            && AllReadable(rates, xs)
            && (mint !in rates.coefficients ==> ExactFees(rates, xs) == 0)
            && (mint in rates.coefficients && rates.coefficients[mint] > 0 ==>
                (Min(ExactFees(rates, xs), U64_MAX) >= fee <==> amount >= DivCeil(fee, rates.coefficients[mint])))
  {
    TollPays(rates, toll, mint, amount);
    OnlyTollPays(rates, before, toll, after);
    if mint in rates.coefficients && rates.coefficients[mint] > 0 {
      CeilIsLeast(amount, rates.coefficients[mint], fee);
    }
  }
}
