/** Decimal token amounts: the SDK's printer and the UI's parser. */
module Amounts {
  import opened Common

  predicate IsDigit(c: char) { '0' <= c <= '9' }

  predicate AllDigits(s: string) { forall i :: 0 <= i < |s| ==> IsDigit(s[i]) }

  function DigitChar(d: nat): (c: char)
    requires d < 10
    ensures IsDigit(c) && DigitValue(c) == d
    ensures c == '0' <==> d == 0
  {
    "0123456789"[d]
  }

  function DigitValue(c: char): (d: nat)
    requires IsDigit(c)
    ensures d < 10
  {
    c as int - '0' as int
  }

  /** JavaScript's `toString` of a non-negative big integer. */
  function Digits(n: nat): (s: string)
    ensures s != [] && AllDigits(s)
  {
    if n < 10 then [DigitChar(n)] else Digits(n / 10) + [DigitChar(n % 10)]
  }

  /** `BigInt` of a string of digits; the empty string is zero. */
  function Value(s: string): nat
    requires AllDigits(s)
  {
    if s == [] then 0 else 10 * Value(s[..|s| - 1]) + DigitValue(s[|s| - 1])
  }

  function Pow10(n: nat): pos { if n == 0 then 1 else 10 * Pow10(n - 1) }

  function Zeros(n: nat): (s: string)
    ensures |s| == n && AllDigits(s) && forall i :: 0 <= i < n ==> s[i] == '0'
  {
    seq(n, _ => '0')
  }

  lemma {:induction false} DigitsValue(n: nat)
    ensures Value(Digits(n)) == n
  {
    if n < 10 {
      assert Digits(n)[..0] == [];
    } else {
      DigitsValue(n / 10);
      assert Digits(n)[..|Digits(n)| - 1] == Digits(n / 10);
    }
  }

  lemma {:induction false} ValueOfConcat(s: string, t: string)
    requires AllDigits(s) && AllDigits(t)
    ensures Value(s + t) == Value(s) * Pow10(|t|) + Value(t)
    decreases |t|
  {
    if t == [] {
      assert s + t == s;
    } else {
      var init := t[..|t| - 1];
      ValueOfConcat(s, init);
      assert (s + t)[..|s + t| - 1] == s + init;
      assert Value(s) * Pow10(|t|) == 10 * (Value(s) * Pow10(|init|));
    }
  }

  lemma {:induction false} ValueOfZeros(n: nat)
    ensures Value(Zeros(n)) == 0
  {
    if n > 0 {
      ValueOfZeros(n - 1);
      assert Zeros(n)[..n - 1] == Zeros(n - 1);
    }
  }

  // ---------- printing ----------

  /** `replace(/0+$/, "")`. */
  function StripZeros(s: string): (r: string)
    ensures r <= s
    ensures r != [] ==> r[|r| - 1] != '0'
    ensures forall i :: |r| <= i < |s| ==> s[i] == '0'
  {
    if s != [] && s[|s| - 1] == '0' then StripZeros(s[..|s| - 1]) else s
  }

  function Whole(amount: nat, decimals: nat): string
  {
    var s := Digits(amount);
    if |s| > decimals then s[..|s| - decimals] else "0"
  }

  /** The fraction, padded on the left to `decimals` digits. */
  function Fraction(amount: nat, decimals: nat): (f: string)
    ensures |f| == decimals && AllDigits(f)
  {
    var s := Digits(amount);
    var decimal := if |s| > decimals then s[|s| - decimals..] else s;
    Zeros(decimals - |decimal|) + decimal
  }

  function AmountToString(amount: nat, decimals: nat): string
  {
    var truncated := StripZeros(Fraction(amount, decimals));
    Whole(amount, decimals) + if truncated == [] then [] else "." + truncated
  }

  lemma SplitHolds(s: string, k: nat)
    requires AllDigits(s) && k <= |s|
    ensures Value(s) == Value(s[..k]) * Pow10(|s| - k) + Value(s[k..])
  {
    assert s == s[..k] + s[k..];
    ValueOfConcat(s[..k], s[k..]);
  }

  lemma LongHalves(amount: nat, decimals: nat)
    requires |Digits(amount)| > decimals
    ensures AllDigits(Whole(amount, decimals)) && Whole(amount, decimals) != []
    ensures Value(Whole(amount, decimals)) * Pow10(decimals) + Value(Fraction(amount, decimals)) == amount
  {
    var s := Digits(amount);
    var k := |s| - decimals;
    DigitsValue(amount);
    SplitHolds(s, k);
    assert Zeros(0) + s[k..] == s[k..];
    assert Fraction(amount, decimals) == s[k..];
  }

  lemma ShortHalves(amount: nat, decimals: nat)
    requires |Digits(amount)| <= decimals
    ensures Value(Whole(amount, decimals)) == 0 && Value(Fraction(amount, decimals)) == amount
  {
    var s := Digits(amount);
    DigitsValue(amount);
    LeadingZeros(decimals - |s|, s);
    assert Zeros(1) == "0";
    ValueOfZeros(1);
  }

  lemma LeadingZeros(n: nat, s: string)
    requires AllDigits(s)
    ensures Value(Zeros(n) + s) == Value(s)
  {
    ValueOfConcat(Zeros(n), s);
    ValueOfZeros(n);
  }

  /** The two halves the printer makes hold the whole amount. */
  lemma HalvesHoldAmount(amount: nat, decimals: nat)
    ensures AllDigits(Whole(amount, decimals)) && Whole(amount, decimals) != []
    ensures Value(Whole(amount, decimals)) * Pow10(decimals) + Value(Fraction(amount, decimals)) == amount
  {
    if |Digits(amount)| > decimals {
      LongHalves(amount, decimals);
    } else {
      ShortHalves(amount, decimals);
    }
  }

  // ---------- parsing ----------

  datatype AmountError = InvalidAmount | TooPrecise

  predicate NotDot(c: char) { c != '.' }

  /** `stringToAmount`, on strings of digits and dots. */
  function StringToAmount(s: string, decimals: nat): Result<nat, AmountError>
  {
    var n := SpanLength(s, NotDot);
    var integer := s[..n];
    if !AllDigits(integer) then Err(InvalidAmount)
    else if n == |s| then Ok(Value(integer) * Pow10(decimals))
    else
      var fraction := s[n + 1..];
      if '.' in fraction then Err(InvalidAmount)
      else if |fraction| > decimals then Err(TooPrecise)
      else if !AllDigits(fraction) then Err(InvalidAmount)
      else Ok(Value(integer) * Pow10(decimals) + Value(fraction + Zeros(decimals - |fraction|)))
  }

  /** A whole part and perhaps a dot and a fraction, laid out as the printer lays them out. */
  function Join(whole: string, truncated: string): string { whole + if truncated == [] then [] else "." + truncated }

  lemma CutAtDot(whole: string, truncated: string)
    requires AllDigits(whole)
    ensures var s := Join(whole, truncated);
            && SpanLength(s, NotDot) == |whole| && s[..|whole|] == whole
            && (truncated == [] ==> |s| == |whole|)
            && (truncated != [] ==> |s| == |whole| + 1 + |truncated| && s[|whole| + 1..] == truncated)
  {
    SpanOfConcat(whole, if truncated == [] then [] else "." + truncated, NotDot);
  }

  lemma StrippedPads(f: string)
    ensures var t := StripZeros(f); t + Zeros(|f| - |t|) == f
  {
  }

  /** The amount that a whole part and a cut fraction denote. */
  function Denoted(whole: string, truncated: string, decimals: nat): nat
    requires AllDigits(whole) && AllDigits(truncated) && |truncated| <= decimals
  {
    Value(whole) * Pow10(decimals) + Value(truncated + Zeros(decimals - |truncated|))
  }

  lemma JoinedReads(whole: string, truncated: string, decimals: nat)
    requires AllDigits(whole) && AllDigits(truncated) && |truncated| <= decimals
    ensures StringToAmount(Join(whole, truncated), decimals) == Ok(Denoted(whole, truncated, decimals))
  {
    CutAtDot(whole, truncated);
    if truncated == [] {
      assert truncated + Zeros(decimals) == Zeros(decimals);
      ValueOfZeros(decimals);
    }
  }

  lemma StrippingKeepsValue(whole: string, fraction: string)
    requires AllDigits(whole) && AllDigits(fraction)
    ensures Denoted(whole, StripZeros(fraction), |fraction|) == Value(whole) * Pow10(|fraction|) + Value(fraction)
  {
    StrippedPads(fraction);
  }

  /** Parsing a printed amount returns it, for every amount and every number of decimals. */
  lemma AmountRoundTrip(amount: nat, decimals: nat)
    ensures StringToAmount(AmountToString(amount, decimals), decimals) == Ok(amount)
  {
    var whole, fraction := Whole(amount, decimals), Fraction(amount, decimals);
    HalvesHoldAmount(amount, decimals);
    StrippingKeepsValue(whole, fraction);
    JoinedReads(whole, StripZeros(fraction), decimals);
  }

  /** Digits, then perhaps a dot and as many digits as there are decimals or fewer. */
  ghost predicate IsAmount(s: string, decimals: nat, whole: string, fraction: string)
  {
    && AllDigits(whole) && AllDigits(fraction) && |fraction| <= decimals
    && ((fraction == "" && s == whole) || s == whole + "." + fraction)
  }

  lemma PaddedValue(fraction: string, n: nat)
    requires AllDigits(fraction)
    ensures Value(fraction + Zeros(n)) == Value(fraction) * Pow10(n)
  {
    ValueOfConcat(fraction, Zeros(n));
    ValueOfZeros(n);
  }

  /** The whole part and the fraction, scaled by the decimals. */
  function Worth(whole: string, fraction: string, decimals: nat): nat
    requires AllDigits(whole) && AllDigits(fraction) && |fraction| <= decimals
  {
    Value(whole) * Pow10(decimals) + Value(fraction) * Pow10(decimals - |fraction|)
  }

  lemma AmountIsRead(s: string, decimals: nat, whole: string, fraction: string)
    requires IsAmount(s, decimals, whole, fraction)
    ensures StringToAmount(s, decimals) == Ok(Worth(whole, fraction, decimals))
  {
    var tail := s[|whole|..];
    assert s == whole + tail;
    SpanOfConcat(whole, tail, NotDot);
    PaddedValue(fraction, decimals - |fraction|);
    if tail != "" {
      assert s[|whole| + 1..] == fraction;
    }
  }

  lemma ReadIsAmount(s: string, decimals: nat) returns (whole: string, fraction: string)
    requires StringToAmount(s, decimals).Ok?
    ensures IsAmount(s, decimals, whole, fraction)
  {
    var n := SpanLength(s, NotDot);
    whole, fraction := s[..n], if n == |s| then "" else s[n + 1..];
    assert n < |s| ==> s == s[..n] + "." + s[n + 1..];
  }

  /** Exactly such texts are amounts, and they are worth their parts. */
  lemma AmountsParseExactly(s: string, decimals: nat, n: nat)
    ensures StringToAmount(s, decimals) == Ok(n) <==>
            exists whole, fraction :: IsAmount(s, decimals, whole, fraction) && n == Worth(whole, fraction, decimals)
  {
    if StringToAmount(s, decimals) == Ok(n) {
      var whole, fraction := ReadIsAmount(s, decimals);
      AmountIsRead(s, decimals, whole, fraction);
    }
    if whole, fraction :| IsAmount(s, decimals, whole, fraction) && n == Worth(whole, fraction, decimals) {
      AmountIsRead(s, decimals, whole, fraction);
    }
  }

  /** The precision error is for digits and a single dot with too much behind it, of whatever characters. */
  lemma TooPreciseExactly(s: string, decimals: nat)
    ensures StringToAmount(s, decimals) == Err(TooPrecise) <==>
            exists whole, fraction ::
              AllDigits(whole) && '.' !in fraction && |fraction| > decimals && s == whole + "." + fraction
  {
    var n := SpanLength(s, NotDot);
    if StringToAmount(s, decimals) == Err(TooPrecise) {
      assert s == s[..n] + "." + s[n + 1..];
    }
    if whole, fraction :|
      AllDigits(whole) && '.' !in fraction && |fraction| > decimals && s == whole + "." + fraction
    {
      SpanOfConcat(whole, "." + fraction, NotDot);
      assert s == whole + ("." + fraction);
      assert s[|whole| + 1..] == fraction;
    }
  }

  /** At fixed decimals, different amounts print differently. */
  lemma PrintingIsInjective(a: nat, b: nat, decimals: nat)
    requires AmountToString(a, decimals) == AmountToString(b, decimals)
    ensures a == b
  {
    AmountRoundTrip(a, decimals);
    AmountRoundTrip(b, decimals);
  }

  lemma {:induction false} NoLeadingZero(n: nat)
    ensures Digits(n)[0] == '0' ==> |Digits(n)| == 1
    ensures n > 0 ==> Digits(n)[0] != '0'
  {
    if n >= 10 {
      NoLeadingZero(n / 10);
    }
  }

  /**
   * The printed form: digits without a leading zero, then perhaps a dot and a fraction that fits
   * and does not end in zero.
   */
  lemma PrintedForm(amount: nat, decimals: nat)
    ensures var s := AmountToString(amount, decimals);
            var n := SpanLength(s, NotDot);
            && n > 0 && AllDigits(s[..n]) && (s[0] == '0' ==> n == 1)
            && (n < |s| ==> var f := s[n + 1..]; 0 < |f| <= decimals && AllDigits(f) && f[|f| - 1] != '0')
  {
    HalvesHoldAmount(amount, decimals);
    CutAtDot(Whole(amount, decimals), StripZeros(Fraction(amount, decimals)));
    NoLeadingZero(amount);
  }
}
