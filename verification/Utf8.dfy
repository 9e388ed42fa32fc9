/** Well-formed UTF-8, as section 3 of RFC 3629 defines it and Rust's `from_utf8` checks it. */
module Utf8 {
  import opened Common

  predicate Tail(x: byte) { 0x80 <= x <= 0xBF }

  /** Length of the well-formed character at the front of `b`, or 0 if there is none. */
  function FirstLength(b: Bytes): (n: nat)
    ensures n <= |b|
  {
    if |b| >= 1 && b[0] <= 0x7F then 1
    else if |b| >= 2 && 0xC2 <= b[0] <= 0xDF && Tail(b[1]) then 2
    else if |b| >= 3 && SecondOfThree(b[0], b[1]) && Tail(b[2]) then 3
    else if |b| >= 4 && SecondOfFour(b[0], b[1]) && Tail(b[2]) && Tail(b[3]) then 4
    else 0
  }

  predicate SecondOfThree(x: byte, y: byte)
  {
    match x
    case 0xE0 => 0xA0 <= y <= 0xBF
    case 0xED => 0x80 <= y <= 0x9F
    case _ => 0xE1 <= x <= 0xEF && Tail(y)
  }

  predicate SecondOfFour(x: byte, y: byte)
  {
    match x
    case 0xF0 => 0x90 <= y <= 0xBF
    case 0xF4 => 0x80 <= y <= 0x8F
    case _ => 0xF1 <= x <= 0xF3 && Tail(y)
  }

  predicate Valid(b: Bytes)
    decreases |b|
  {
    b == [] || (FirstLength(b) > 0 && Valid(b[FirstLength(b)..]))
  }

  // ---------- encoding and decoding ----------

  /** The six bits a tail byte carries. */
  function Bits(x: byte): int { x as int - 0x80 }

  function TailByte(n: nat): (x: byte)
    ensures Tail(x) && Bits(x) == n % 64
  {
    0x80 + n % 64
  }

  function EncodeChar(c: char): (b: Bytes)
    ensures |b| > 0
  {
    var n := c as int;
    if n < 0x80 then [n]
    else if n < 0x800 then [0xC0 + n / 64, TailByte(n)]
    else if n < 0x10000 then [0xE0 + n / 64 / 64, TailByte(n / 64), TailByte(n)]
    else [0xF0 + n / 64 / 64 / 64, TailByte(n / 64 / 64), TailByte(n / 64), TailByte(n)]
  }

  function Encode(s: string): Bytes
  {
    if s == [] then [] else EncodeChar(s[0]) + Encode(s[1..])
  }

  /** The number of the character at the front, its leading bits first. */
  function CodePoint(b: Bytes): (n: int)
    requires FirstLength(b) > 0
    ensures 0 <= n < 0xD800 || 0xE000 <= n < 0x11_0000
  {
    var lead: int := b[0];
    match FirstLength(b)
    case 1 => lead
    case 2 => (lead - 0xC0) * 64 + Bits(b[1])
    case 3 => ((lead - 0xE0) * 64 + Bits(b[1])) * 64 + Bits(b[2])
    case _ => (((lead - 0xF0) * 64 + Bits(b[1])) * 64 + Bits(b[2])) * 64 + Bits(b[3])
  }

  function Decode(b: Bytes): Option<string>
    decreases |b|
  {
    if b == [] then Some("")
    else if FirstLength(b) == 0 then None
    else
      var rest := Decode(b[FirstLength(b)..]);
      if rest.None? then None else Some([CodePoint(b) as char] + rest.value)
  }

  lemma CharInverse(c: char, rest: Bytes)
    ensures var b := EncodeChar(c) + rest; FirstLength(b) == |EncodeChar(c)| && CodePoint(b) == c as int
  {
    var n := c as int;
    var b := EncodeChar(c) + rest;
    if n < 0x80 {
      assert b[0] == n;
    } else if n < 0x800 {
      assert b[0] == 0xC0 + n / 64 && b[1] == TailByte(n);
    } else if n < 0x10000 {
      assert b[0] == 0xE0 + n / 64 / 64 && b[1] == TailByte(n / 64) && b[2] == TailByte(n);
    } else {
      assert b[0] == 0xF0 + n / 64 / 64 / 64 && b[1] == TailByte(n / 64 / 64);
      assert b[2] == TailByte(n / 64) && b[3] == TailByte(n);
    }
  }

  /** Every text is decoded from its own encoding, which is well formed. */
  lemma {:induction false} DecodeInverse(s: string)
    ensures Decode(Encode(s)) == Some(s) && Valid(Encode(s))
  {
    if s != [] {
      var rest := Encode(s[1..]);
      CharInverse(s[0], rest);
      DecodeInverse(s[1..]);
      assert Encode(s)[|EncodeChar(s[0])|..] == rest;
      assert [s[0]] + s[1..] == s;
    }
  }

  lemma ReadsTwo(b: Bytes)
    requires FirstLength(b) == 2
    ensures EncodeChar(CodePoint(b) as char) == b[..2]
  {
    var n := CodePoint(b);
    assert 0x80 <= n < 0x800 && n / 64 == b[0] - 0xC0 && n % 64 == Bits(b[1]);
  }

  lemma ReadsThree(b: Bytes)
    requires FirstLength(b) == 3
    ensures EncodeChar(CodePoint(b) as char) == b[..3]
  {
    var n := CodePoint(b);
    assert n / 64 == (b[0] as int - 0xE0) * 64 + Bits(b[1]) && n % 64 == Bits(b[2]);
    assert n / 64 / 64 == b[0] - 0xE0 && n / 64 % 64 == Bits(b[1]);
    assert 0x800 <= n < 0x10000;
  }

  lemma ReadsFour(b: Bytes)
    requires FirstLength(b) == 4
    ensures EncodeChar(CodePoint(b) as char) == b[..4]
  {
    var n := CodePoint(b);
    assert n / 64 == ((b[0] as int - 0xF0) * 64 + Bits(b[1])) * 64 + Bits(b[2]) && n % 64 == Bits(b[3]);
    assert n / 64 / 64 == (b[0] as int - 0xF0) * 64 + Bits(b[1]) && n / 64 % 64 == Bits(b[2]);
    assert n / 64 / 64 / 64 == b[0] - 0xF0 && n / 64 / 64 % 64 == Bits(b[1]);
    assert 0x10000 <= n;
  }

  lemma CharReads(b: Bytes)
    requires FirstLength(b) > 0
    ensures EncodeChar(CodePoint(b) as char) == b[..FirstLength(b)]
  {
    match FirstLength(b)
    case 1 =>
    case 2 => ReadsTwo(b);
    case 3 => ReadsThree(b);
    case _ => ReadsFour(b);
  }

  lemma EncodeCons(c: char, s: string, b: Bytes, n: nat)
    requires n <= |b| && EncodeChar(c) == b[..n] && Encode(s) == b[n..]
    ensures Encode([c] + s) == b
  {
    assert ([c] + s)[1..] == s;
    assert b[..n] + b[n..] == b;
  }

  lemma DecodeStep(b: Bytes, s: string) returns (c: char)
    requires FirstLength(b) > 0 && Decode(b[FirstLength(b)..]) == Some(s)
    ensures Decode(b) == Some([c] + s) && EncodeChar(c) == b[..FirstLength(b)]
  {
    c := CodePoint(b) as char;
    CharReads(b);
  }

  /** Decoding succeeds exactly on well-formed bytes, and loses nothing. */
  lemma {:induction false} DecodesExactly(b: Bytes)
    ensures Decode(b).Some? <==> Valid(b)
    ensures Decode(b).Some? ==> Encode(Decode(b).value) == b
    decreases |b|
  {
    if b != [] && FirstLength(b) > 0 {
      var n := FirstLength(b);
      DecodesExactly(b[n..]);
      if Decode(b[n..]).Some? {
        var s := Decode(b[n..]).value;
        var c := DecodeStep(b, s);
        EncodeCons(c, s, b, n);
      }
    }
  }

  /** The encoding of ASCII characters in front is those characters. */
  lemma {:induction false} AsciiInFront(s: string, k: nat)
    requires k <= |s| && forall i :: 0 <= i < k ==> s[i] as int < 0x80
    ensures |Encode(s)| >= k && forall i :: 0 <= i < k ==> Encode(s)[i] == s[i] as int
  {
    if k > 0 {
      AsciiInFront(s[1..], k - 1);
    }
  }

  /** ASCII text is encoded as its characters. */
  lemma {:induction false} AsciiIs(s: string)
    requires forall i :: 0 <= i < |s| ==> s[i] as int < 0x80
    ensures |Encode(s)| == |s| && forall i :: 0 <= i < |s| ==> Encode(s)[i] == s[i] as int
  {
    if s != [] {
      AsciiIs(s[1..]);
    }
  }
}
