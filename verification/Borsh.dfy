/**
 * Borsh readers and writers. A reader returns the value and the unread bytes; a writer
 * puts its value in front of the bytes that follow it, so a reader undoes a writer
 * whatever follows.
 */
module Borsh {
  import opened Common
  import Utf8

  datatype Parsed<+T> = Fail | Got(value: T, rest: Bytes) {
    predicate IsFailure() { Fail? }
    function PropagateFailure<U>(): Parsed<U>
      requires Fail?
    {
      Fail
    }
    function Extract(): (T, Bytes)
      requires Got?
    {
      (value, rest)
    }
  }

  type Reader<!T> = Bytes -> Parsed<T>
  type Writer<!T> = (T, Bytes) -> Bytes

  ghost predicate Inverse<T(!new)>(put: Writer<T>, get: Reader<T>, ok: T -> bool)
  {
    forall x, rest :: ok(x) ==> get(put(x, rest)) == Got(x, rest)
  }

  function GetBytes(n: nat, b: Bytes): (p: Parsed<Bytes>)
    ensures p.Got? ==> |p.value| == n
  {
    if |b| < n then Fail else Got(b[..n], b[n..])
  }

  function GetKey(b: Bytes): Parsed<Pubkey>
  {
    var p := GetBytes(32, b);
    if p.Fail? then Fail else Got(p.value, p.rest)
  }

  function PutKey(k: Pubkey, rest: Bytes): Bytes { k + rest }

  function GetLe(width: nat, b: Bytes): (p: Parsed<nat>)
    ensures p.Got? ==> p.value < Pow256(width)
  {
    if |b| < width then Fail
    else
      FromLeBound(b[..width]);
      Got(FromLe(b[..width]), b[width..])
  }

  function PutLe(n: nat, width: nat, rest: Bytes): Bytes { Le(n, width) + rest }

  lemma LeInverse(n: nat, width: nat, rest: Bytes)
    requires n < Pow256(width)
    ensures GetLe(width, PutLe(n, width, rest)) == Got(n, rest)
  {
    LeRoundTrip(n, width);
    var b := PutLe(n, width, rest);
    assert b[..width] == Le(n, width) && b[width..] == rest;
  }

  function GetByte(b: Bytes): Parsed<byte>
  {
    if b == [] then Fail else Got(b[0], b[1..])
  }

  function GetI64(b: Bytes): Parsed<I64>
  {
    var p := GetLe(8, b);
    Widths();
    if p.Fail? then Fail else Got(ToI64(p.value), p.rest)
  }

  function PutI64(x: I64, rest: Bytes): Bytes { PutLe(OfI64(x), 8, rest) }

  lemma I64Inverse(x: I64, rest: Bytes)
    ensures GetI64(PutI64(x, rest)) == Got(x, rest)
  {
    Widths();
    LeInverse(OfI64(x), 8, rest);
  }

  lemma BytesInverse(x: Bytes, rest: Bytes)
    ensures GetBytes(|x|, x + rest) == Got(x, rest)
  {
    assert (x + rest)[..|x|] == x && (x + rest)[|x|..] == rest;
  }

  lemma KeyInverse(k: Pubkey, rest: Bytes)
    ensures GetKey(PutKey(k, rest)) == Got(k, rest)
  {
    BytesInverse(k, rest);
  }

  function GetMany<T>(get: Reader<T>, n: nat, b: Bytes): Parsed<seq<T>>
  {
    if n == 0 then Got([], b)
    else
      var (x, b) :- get(b);
      var (xs, b) :- GetMany(get, n - 1, b);
      Got([x] + xs, b)
  }

  function PutMany<T>(put: Writer<T>, xs: seq<T>, rest: Bytes): Bytes
  {
    if xs == [] then rest else put(xs[0], PutMany(put, xs[1..], rest))
  }

  lemma {:induction false} ManyInverse<T(!new)>(put: Writer<T>, get: Reader<T>, ok: T -> bool, xs: seq<T>, rest: Bytes)
    requires Inverse(put, get, ok)
    requires forall x :: x in xs ==> ok(x)
    ensures GetMany(get, |xs|, PutMany(put, xs, rest)) == Got(xs, rest)
  {
    if xs != [] {
      ManyInverse(put, get, ok, xs[1..], rest);
      assert ok(xs[0]);
      var tail := PutMany(put, xs[1..], rest);
      assert get(put(xs[0], tail)) == Got(xs[0], tail);
      assert [xs[0]] + xs[1..] == xs;
    }
  }

  /** A vector: a 32-bit count, then the elements. */
  function GetVec<T>(get: Reader<T>, b: Bytes): Parsed<seq<T>>
  {
    var (n, b) :- GetLe(4, b);
    GetMany(get, n, b)
  }

  function PutVec<T>(put: Writer<T>, xs: seq<T>, rest: Bytes): Bytes
  {
    PutLe(|xs|, 4, PutMany(put, xs, rest))
  }

  lemma VecInverse<T(!new)>(put: Writer<T>, get: Reader<T>, ok: T -> bool, xs: seq<T>, rest: Bytes)
    requires Inverse(put, get, ok)
    requires |xs| <= U32_MAX && forall x :: x in xs ==> ok(x)
    ensures GetVec(get, PutVec(put, xs, rest)) == Got(xs, rest)
  {
    Widths();
    LeInverse(|xs|, 4, PutMany(put, xs, rest));
    ManyInverse(put, get, ok, xs, rest);
  }

  /** A string: a 32-bit byte count, then UTF-8 bytes. */
  function GetString(b: Bytes): Parsed<Bytes>
  {
    var (n, b) :- GetLe(4, b);
    var (s, b) :- GetBytes(n, b);
    if Utf8.Valid(s) then Got(s, b) else Fail
  }

  function PutString(s: Bytes, rest: Bytes): Bytes { PutLe(|s|, 4, s + rest) }

  lemma StringInverse(s: Bytes, rest: Bytes)
    requires |s| <= U32_MAX && Utf8.Valid(s)
    ensures GetString(PutString(s, rest)) == Got(s, rest)
  {
    Widths();
    LeInverse(|s|, 4, s + rest);
    BytesInverse(s, rest);
  }

  lemma {:induction false} ManyLength<T(!new)>(put: Writer<T>, size: nat, xs: seq<T>, rest: Bytes)
    requires forall x, tail :: |put(x, tail)| == size + |tail|
    ensures |PutMany(put, xs, rest)| == size * |xs| + |rest|
  {
    if xs != [] {
      ManyLength(put, size, xs[1..], rest);
      assert size * |xs| == size * (|xs| - 1) + size;
    }
  }
}
