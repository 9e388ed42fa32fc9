/**
 * Shared vocabulary: optional and fallible results, machine integers, public keys
 * and the little-endian integer layout that every wire format here uses.
 */
module Common {

  datatype Option<+T> = None | Some(value: T)

  datatype Result<+T, +E> = Ok(value: T) | Err(error: E) {
    predicate IsFailure() { Err? }
    function PropagateFailure<U>(): Result<U, E>
      requires Err?
    {
      Err(error)
    }
    function Extract(): T
      requires Ok?
    {
      value
    }
  }

  const U16_MAX := 0xFFFF
  const U32_MAX := 0xFFFF_FFFF
  const U64_MAX := 0xFFFF_FFFF_FFFF_FFFF
  const I64_MAX := 0x7FFF_FFFF_FFFF_FFFF

  type byte = x: int | 0 <= x < 256
  type pos = x: int | 0 < x witness 1
  type U32 = x: int | 0 <= x <= U32_MAX
  type U64 = x: int | 0 <= x <= U64_MAX
  type I64 = x: int | -I64_MAX - 1 <= x <= I64_MAX
  type Bytes = seq<byte>
  type Pubkey = k: Bytes | |k| == 32 witness seq(32, _ => 0)

  function Min(x: int, y: int): int { if x <= y then x else y }

  function Max(x: int, y: int): int { if x >= y then x else y }

  /** Rust's `saturating_sub` on unsigned integers. */
  function SatSub(x: nat, y: nat): nat { if x <= y then 0 else x - y }

  /** Rust's `saturating_add` and `saturating_mul` on `u64`. */
  function SatAdd(x: U64, y: U64): U64 { Min(x + y, U64_MAX) }

  function SatMul(x: U64, y: U64): U64
  {
    Product(x, y);
    Min(x * y, U64_MAX)
  }

  lemma Product(x: nat, y: nat)
    ensures x * y >= 0
  {
  }

  function Pow256(n: nat): pos { if n == 0 then 1 else 256 * Pow256(n - 1) }

  /** `n` in `width` little-endian bytes; higher bits are dropped, as a cast drops them. */
  function Le(n: nat, width: nat): (b: Bytes)
    ensures |b| == width
  {
    if width == 0 then [] else [n % 256] + Le(n / 256, width - 1)
  }

  function FromLe(b: Bytes): nat
  {
    if b == [] then 0 else b[0] + 256 * FromLe(b[1..])
  }

  lemma {:induction false} FromLeBound(b: Bytes)
    ensures FromLe(b) < Pow256(|b|)
  {
    if b != [] {
      FromLeBound(b[1..]);
    }
  }

  lemma {:induction false} LeRoundTrip(n: nat, width: nat)
    requires n < Pow256(width)
    ensures FromLe(Le(n, width)) == n
  {
    if width > 0 {
      LeRoundTrip(n / 256, width - 1);
      assert Le(n, width)[1..] == Le(n / 256, width - 1);
    }
  }

  lemma {:induction false} LeOfFromLe(b: Bytes)
    ensures Le(FromLe(b), |b|) == b
  {
    if b != [] {
      LeOfFromLe(b[1..]);
      var n, rest := FromLe(b), FromLe(b[1..]);
      assert n == b[0] + 256 * rest;
      assert n % 256 == b[0] && n / 256 == rest;
    }
  }

  lemma Widths()
    ensures Pow256(1) == 256
    ensures Pow256(2) == U16_MAX + 1
    ensures Pow256(4) == U32_MAX + 1
    ensures Pow256(8) == U64_MAX + 1
  {
    assert Pow256(2) == 256 * Pow256(1);
    assert Pow256(3) == 256 * Pow256(2);
    assert Pow256(4) == 256 * Pow256(3);
    assert Pow256(5) == 256 * Pow256(4);
    assert Pow256(6) == 256 * Pow256(5);
    assert Pow256(7) == 256 * Pow256(6);
    assert Pow256(8) == 256 * Pow256(7);
  }

  /** Two's complement reading of a 64-bit word. */
  function ToI64(n: U64): I64 { if n <= I64_MAX then n else n - U64_MAX - 1 }

  function OfI64(x: I64): U64 { if x >= 0 then x else x + U64_MAX + 1 }

  /** A predicate-driven scan: the length of the longest prefix of `s` satisfying `p`. */
  function SpanLength<T>(s: seq<T>, p: T -> bool): (n: nat)
    ensures n <= |s|
    ensures forall i :: 0 <= i < n ==> p(s[i])
    ensures n < |s| ==> !p(s[n])
  {
    if s == [] || !p(s[0]) then 0 else 1 + SpanLength(s[1..], p)
  }

  /** Splitting a concatenation: the span stops where the first part stops. */
  lemma {:induction false} SpanOfConcat<T>(s: seq<T>, t: seq<T>, p: T -> bool)
    requires forall i :: 0 <= i < |s| ==> p(s[i])
    requires t == [] || !p(t[0])
    ensures SpanLength(s + t, p) == |s|
  {
    if s == [] {
      assert s + t == t;
    } else {
      assert (s + t)[1..] == s[1..] + t;
      SpanOfConcat(s[1..], t, p);
    }
  }

  /** The rent-exempt minimum for an account with `space` bytes of data, at a rate per byte. */
  function MinimumBalance(rate: pos, space: nat): (r: nat)
    ensures r > 0
  {
    Positive(128 + space, rate);
    (128 + space) * rate
  }

  lemma Positive(x: pos, y: pos)
    ensures x * y > 0
  {
  }

  lemma RentGrows(rate: pos, small: nat, large: nat)
    requires small <= large
    ensures MinimumBalance(rate, small) <= MinimumBalance(rate, large)
    ensures small < large ==> MinimumBalance(rate, small) < MinimumBalance(rate, large)
  {
    var d: nat := large - small;
    assert (128 + large) * rate == (128 + small) * rate + d * rate;
    if d > 0 {
      Positive(d, rate);
    }
  }
}
