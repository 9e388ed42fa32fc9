/** Off-chain message envelopes: the two current versions, the legacy one and bare messages. */
module Envelope {
  import opened Common
  import opened Borsh
  import Utf8

  /** 0xff, then "solana offchain". */
  const SIGNING_DOMAIN: Bytes := [0xFF, 115, 111, 108, 97, 110, 97, 32, 111, 102, 102, 99, 104, 97, 105, 110]

  /** A byte that UTF-8 never uses, then a text. */
  lemma SigningDomainIs(text: string)
    requires text == "solana offchain"
    ensures SIGNING_DOMAIN == [0xFF] + Utf8.Encode(text)
  {
    Utf8.AsciiIs(text);
    var encoded := Utf8.Encode(text);
    assert |encoded| == 15 && forall i :: 0 <= i < 15 ==> SIGNING_DOMAIN[i + 1] == encoded[i];
  }

  datatype Envelope =
    | V0(applicationDomain: Pubkey, signers: seq<Pubkey>, message: Bytes)
    | V1(signers: seq<Pubkey>, message: Bytes)

  const RESTRICTED_ASCII: byte := 0
  const LIMITED_UTF8: byte := 1
  const EXTENDED_UTF8: byte := 2

  // ---------- decoding ----------

  function Prepend<T>(done: seq<T>, p: Parsed<seq<T>>): Parsed<seq<T>>
  {
    match p
    case Got(xs, tail) => Got(done + xs, tail)
    case Fail => Fail
  }

  lemma ReadOneMore<T>(get: Reader<T>, n: nat, b: Bytes, done: seq<T>)
    requires n > 0
    ensures get(b).Fail? ==> GetMany(get, n, b).Fail?
    ensures get(b).Got? ==>
              Prepend(done, GetMany(get, n, b)) == Prepend(done + [get(b).value], GetMany(get, n - 1, get(b).rest))
  {
    if get(b).Got? {
      var one, more := get(b), GetMany(get, n - 1, get(b).rest);
      assert more.Got? ==> done + ([one.value] + more.value) == (done + [one.value]) + more.value;
    }
  }

  /** The loop that reads a counted vector element by element. */
  method VecWithLen<T>(get: Reader<T>, n: nat, b: Bytes) returns (p: Parsed<seq<T>>)
    ensures p == GetMany(get, n, b)
  {
    var contents: seq<T> := [];
    var rest := b;
    ghost var whole := GetMany(get, n, b);
    assert whole.Got? ==> [] + whole.value == whole.value;
    for i := 0 to n
      invariant whole == Prepend(contents, GetMany(get, n - i, rest))
    {
      ReadOneMore(get, n - i, rest, contents);
      var one := get(rest);
      if one.Fail? {
        return Fail;
      }
      contents := contents + [one.value];
      rest := one.rest;
    }
    assert contents + [] == contents;
    p := Got(contents, rest);
  }

  function GetSigners(b: Bytes): Parsed<seq<Pubkey>>
  {
    var (n, b) :- GetByte(b);
    GetMany(GetKey, n, b)
  }

  /** The application domain, the message format, the signers and the message. */
  function GetV0(b: Bytes): Parsed<(byte, Envelope)>
  {
    var (domain, b) :- GetKey(b);
    var (format, b) :- GetByte(b);
    if format > EXTENDED_UTF8 then Fail
    else
      var (signers, b) :- GetSigners(b);
      var (n, b) :- GetLe(2, b);
      var (message, b) :- GetBytes(n, b);
      Got((format, V0(domain, signers, message)), b)
  }

  /** The signers; the message is all the rest. */
  function GetV1(b: Bytes): Parsed<Envelope>
  {
    var (signers, b) :- GetSigners(b);
    Got(V1(signers, b), [])
  }

  predicate PrintableAscii(m: Bytes) { forall i :: 0 <= i < |m| ==> 0x20 <= m[i] <= 0x7E }

  function MaxLength(format: byte): nat { if format == EXTENDED_UTF8 then 65535 else 1232 }

  predicate Precedes(a: Bytes, b: Bytes)
  {
    b != [] && (a == [] || a[0] < b[0] || (a[0] == b[0] && Precedes(a[1..], b[1..])))
  }

  /** Sorted and without duplicates. */
  predicate StrictlySorted(keys: seq<Pubkey>) { forall i, j :: 0 <= i < j < |keys| ==> Precedes(keys[i], keys[j]) }

  predicate ValidV0(format: byte, e: Envelope)
  {
    && (format == RESTRICTED_ASCII ==> PrintableAscii(e.message))
    && |e.message| <= MaxLength(format) && Utf8.Valid(e.message)
  }

  predicate ValidV1(e: Envelope) { e.signers != [] && StrictlySorted(e.signers) && Utf8.Valid(e.message) }

  /** `OffchainMessage::try_from`: every byte must be read. */
  function DecodeOffchain(data: Bytes): Option<Envelope>
  {
    var domain := GetBytes(16, data);
    if domain.Fail? || domain.value != SIGNING_DOMAIN || domain.rest == [] then None
    else
      var version, b := domain.rest[0], domain.rest[1..];
      if version == 0 then
        var p := GetV0(b);
        if p.Got? && p.rest == [] && ValidV0(p.value.0, p.value.1) then Some(p.value.1) else None
      else if version == 1 then
        var p := GetV1(b);
        if p.Got? && ValidV1(p.value) then Some(p.value) else None
      else None
  }

  datatype Message = Raw(raw: Bytes) | LegacyOffchain(text: Bytes) | Offchain(envelope: Envelope)

  datatype MessageError = InvalidLegacyMessage | NotAllBytesRead

  const LEGACY_HEADER := 20

  /** `legacy` is the decoder of the legacy message crate. */
  function LegacyBranch(legacy: Bytes -> Option<Bytes>, data: Bytes): Result<Message, MessageError>
  {
    match legacy(data)
    case None => Err(InvalidLegacyMessage)
    case Some(text) => if |data| > |text| + LEGACY_HEADER then Err(NotAllBytesRead) else Ok(LegacyOffchain(text))
  }

  function Deserialize(legacy: Bytes -> Option<Bytes>, data: Bytes): Result<Message, MessageError>
  {
    match DecodeOffchain(data)
    case Some(e) => Ok(Offchain(e))
    case None => if SIGNING_DOMAIN <= data then LegacyBranch(legacy, data) else Ok(Raw(data))
  }

  lemma EncodedDeserializes(legacy: Bytes -> Option<Bytes>, e: Envelope, format: byte)
    requires Valid(e, format)
    ensures Deserialize(legacy, Encode(e, format)) == Ok(Offchain(e))
  {
    EnvelopeRoundTrip(e, format);
  }

  /** The bytes handed to the intent parser. */
  function Payload(m: Message): Bytes
  {
    match m
    case Raw(raw) => raw
    case LegacyOffchain(text) => text
    case Offchain(e) => e.message
  }

  // ---------- encoding ----------

  function PutSigners(keys: seq<Pubkey>, rest: Bytes): Bytes { PutLe(|keys|, 1, PutMany(PutKey, keys, rest)) }

  /** The layout of the envelope; `format` matters to version 0 only. */
  function Encode(e: Envelope, format: byte): Bytes
  {
    SIGNING_DOMAIN +
    match e
    case V0(domain, signers, message) =>
      [0] + PutKey(domain, [format] + PutSigners(signers, PutLe(|message|, 2, message)))
    case V1(signers, message) => [1] + PutSigners(signers, message)
  }

  predicate Valid(e: Envelope, format: byte)
  {
    |e.signers| <= 255 &&
    match e
    case V0(_, _, _) => format <= EXTENDED_UTF8 && ValidV0(format, e)
    case V1(_, _) => ValidV1(e)
  }

  lemma SignersInverse(keys: seq<Pubkey>, rest: Bytes)
    requires |keys| <= 255
    ensures GetSigners(PutSigners(keys, rest)) == Got(keys, rest)
  {
    var many := PutMany(PutKey, keys, rest);
    assert Le(|keys|, 1) == [|keys|];
    assert PutSigners(keys, rest)[1..] == many;
    forall k: Pubkey, tail: Bytes ensures GetKey(PutKey(k, tail)) == Got(k, tail)
    {
      KeyInverse(k, tail);
    }
    ManyInverse(PutKey, GetKey, _ => true, keys, rest);
  }

  lemma V0Inverse(e: Envelope, format: byte)
    requires e.V0? && Valid(e, format)
    ensures GetV0(PutKey(e.applicationDomain, [format] + PutSigners(e.signers, PutLe(|e.message|, 2, e.message)))) ==
            Got((format, e), [])
  {
    var counted := PutLe(|e.message|, 2, e.message);
    var signers := PutSigners(e.signers, counted);
    KeyInverse(e.applicationDomain, [format] + signers);
    assert ([format] + signers)[1..] == signers;
    SignersInverse(e.signers, counted);
    Widths();
    LeInverse(|e.message|, 2, e.message);
    BytesInverse(e.message, []);
    assert e.message + [] == e.message;
  }

  /** Every valid envelope of either version decodes to itself. */
  lemma EnvelopeRoundTrip(e: Envelope, format: byte)
    requires Valid(e, format)
    ensures DecodeOffchain(Encode(e, format)) == Some(e)
  {
    var data := Encode(e, format);
    var body := data[16..];
    assert data[..16] == SIGNING_DOMAIN;
    if e.V0? {
      assert body[1..] ==
        PutKey(e.applicationDomain, [format] + PutSigners(e.signers, PutLe(|e.message|, 2, e.message)));
      V0Inverse(e, format);
    } else {
      assert body[1..] == PutSigners(e.signers, e.message);
      SignersInverse(e.signers, e.message);
    }
  }

  // ---------- only encodings are accepted ----------

  lemma {:induction false} ReadKeys(n: nat, b: Bytes)
    requires GetMany(GetKey, n, b).Got?
    ensures var p := GetMany(GetKey, n, b); |p.value| == n && b == PutMany(PutKey, p.value, p.rest)
  {
    if n > 0 {
      var first := GetKey(b);
      ReadKeys(n - 1, first.rest);
      assert b == first.value + first.rest;
      assert GetMany(GetKey, n, b).value[1..] == GetMany(GetKey, n - 1, first.rest).value;
    }
  }

  lemma ReadSigners(b: Bytes)
    requires GetSigners(b).Got?
    ensures var p := GetSigners(b); |p.value| <= 255 && b == PutSigners(p.value, p.rest)
  {
    ReadKeys(b[0], b[1..]);
    assert Le(b[0], 1) == [b[0]];
    assert b == [b[0]] + b[1..];
  }

  lemma ReadMessage(b: Bytes, n: nat, rest: Bytes, message: Bytes)
    requires GetLe(2, b) == Got(n, rest) && GetBytes(n, rest) == Got(message, [])
    ensures b == PutLe(|message|, 2, message)
  {
    LeOfFromLe(b[..2]);
    assert b == b[..2] + b[2..];
    assert rest == rest[..n] + rest[n..];
  }

  lemma ReadV0(b: Bytes)
    requires GetV0(b).Got? && GetV0(b).rest == []
    ensures var (format, e) := GetV0(b).value;
            && e.V0? && |e.signers| <= 255 && format <= EXTENDED_UTF8
            && b == PutKey(e.applicationDomain, [format] + PutSigners(e.signers, PutLe(|e.message|, 2, e.message)))
  {
    var (format, e) := GetV0(b).value;
    var b1 := GetKey(b).rest;
    var b2 := b1[1..];
    assert b == e.applicationDomain + b1 && b1 == [format] + b2;
    ReadSigners(b2);
    var b3 := GetSigners(b2).rest;
    ReadMessage(b3, GetLe(2, b3).value, GetLe(2, b3).rest, e.message);
  }

  lemma {:induction false} PrecedesDiffers(a: Bytes, b: Bytes)
    requires Precedes(a, b)
    ensures a != b
  {
    if a != [] && a[0] == b[0] {
      PrecedesDiffers(a[1..], b[1..]);
    }
  }

  /**
   * Every accepted byte string is the encoding of the envelope it decodes to, so acceptance is
   * exact; a version 1 envelope has at least one signer and no signer twice.
   */
  lemma AcceptedIsEncoding(data: Bytes) returns (format: byte)
    requires DecodeOffchain(data).Some?
    ensures var e := DecodeOffchain(data).value;
            && Valid(e, format) && Encode(e, format) == data
            && (e.V1? ==> |e.signers| >= 1 && forall i, j :: 0 <= i < j < |e.signers| ==> e.signers[i] != e.signers[j])
  {
    var e, b := DecodeOffchain(data).value, data[16..][1..];
    assert data == SIGNING_DOMAIN + ([data[16]] + b);
    if data[16] == 0 {
      ReadV0(b);
      format := GetV0(b).value.0;
    } else {
      ReadSigners(b);
      format := 0;
      forall i, j | 0 <= i < j < |e.signers| ensures e.signers[i] != e.signers[j]
      {
        PrecedesDiffers(e.signers[i], e.signers[j]);
      }
    }
  }

  /** At the first byte that differs, `a` has the smaller one. */
  predicate SmallerAt(a: Bytes, b: Bytes, k: nat)
  {
    k < |a| && k < |b| && a[..k] == b[..k] && a[k] < b[k]
  }

  ghost predicate Smaller(a: Bytes, b: Bytes)
  {
    exists k :: SmallerAt(a, b, k)
  }

  lemma {:induction false} PrecedesExactly(a: Bytes, b: Bytes)
    requires |a| == |b|
    ensures Precedes(a, b) <==> Smaller(a, b)
  {
    if a != [] {
      PrecedesExactly(a[1..], b[1..]);
      if Precedes(a, b) {
        if a[0] < b[0] {
          assert SmallerAt(a, b, 0);
        } else {
          var k: nat :| SmallerAt(a[1..], b[1..], k);
          assert a[..k + 1] == [a[0]] + a[1..][..k] && b[..k + 1] == [b[0]] + b[1..][..k];
          assert SmallerAt(a, b, k + 1);
        }
      }
      if k: nat :| SmallerAt(a, b, k) {
        if k > 0 {
          assert a[..k][0] == a[0] && b[..k][0] == b[0];
          assert a[1..][..k - 1] == a[..k][1..] && b[1..][..k - 1] == b[..k][1..];
          assert SmallerAt(a[1..], b[1..], k - 1);
        }
      }
    }
  }

  /**
   * What makes an envelope valid. Version 0: format 0 takes up to 1232 printable ASCII characters,
   * format 1 up to 1232 bytes and format 2 up to 65535 bytes of UTF-8. Version 1: at least one
   * signer, each smaller than the next, and UTF-8. A count byte bounds the signers of both.
   */
  lemma ValidMeans(e: Envelope, format: byte)
    ensures e.V0? ==>
              (Valid(e, format) <==>
               && |e.signers| <= 255 && Utf8.Valid(e.message)
               && (|| (format == 0 && |e.message| <= 1232 &&
                       forall i :: 0 <= i < |e.message| ==> 32 <= e.message[i] <= 126)
                   || (format == 1 && |e.message| <= 1232)
                   || (format == 2 && |e.message| <= 65535)))
    ensures e.V1? ==>
              (Valid(e, format) <==> 1 <= |e.signers| <= 255 && Utf8.Valid(e.message) && Ascending(e.signers))
  {
    AscendingMeans(e.signers);
  }

  /** Each key is smaller than the later ones at the first byte in which they differ. */
  ghost predicate Ascending(keys: seq<Pubkey>)
  {
    forall i, j :: 0 <= i < j < |keys| ==> Smaller(keys[i], keys[j])
  }

  lemma AscendingMeans(keys: seq<Pubkey>)
    ensures StrictlySorted(keys) <==> Ascending(keys)
  {
    if StrictlySorted(keys) {
      forall i, j | 0 <= i < j < |keys| ensures Smaller(keys[i], keys[j])
      {
        PrecedesExactly(keys[i], keys[j]);
      }
    }
    if Ascending(keys) {
      forall i, j | 0 <= i < j < |keys| ensures Precedes(keys[i], keys[j])
      {
        PrecedesExactly(keys[i], keys[j]);
      }
    }
  }

  // ---------- no ambiguity ----------

  /**
   * Which bytes are taken for which kind of message: an envelope if they encode one; otherwise a
   * legacy message if they carry the signing domain and the legacy decoder reads a text that, with
   * the twenty bytes before it, is all of them; and bare if they do not carry the domain.
   */
  lemma DeserializesExactly(legacy: Bytes -> Option<Bytes>, data: Bytes, e: Envelope, text: Bytes)
    ensures Deserialize(legacy, data) == Ok(Offchain(e)) <==> DecodeOffchain(data) == Some(e)
    ensures Deserialize(legacy, data) == Ok(LegacyOffchain(text)) <==>
            && DecodeOffchain(data).None? && SIGNING_DOMAIN <= data
            && legacy(data) == Some(text) && |data| <= |text| + 20
    ensures Deserialize(legacy, data) == Err(NotAllBytesRead) <==>
            && DecodeOffchain(data).None? && SIGNING_DOMAIN <= data
            && legacy(data).Some? && |data| > |legacy(data).value| + 20
    ensures Deserialize(legacy, data) == Err(InvalidLegacyMessage) <==>
            DecodeOffchain(data).None? && SIGNING_DOMAIN <= data && legacy(data).None?
  {
    if DecodeOffchain(data).Some? {
      var format := AcceptedIsEncoding(data);
    }
  }

  /** A message is taken as bare exactly when it lacks the signing domain. */
  lemma RawExactly(legacy: Bytes -> Option<Bytes>, data: Bytes)
    ensures (Deserialize(legacy, data).Ok? && Deserialize(legacy, data).value.Raw?) <==> !(SIGNING_DOMAIN <= data)
    ensures !(SIGNING_DOMAIN <= data) ==> Deserialize(legacy, data) == Ok(Raw(data))
  {
    if |data| >= 16 {
      assert data[..16] == SIGNING_DOMAIN <==> SIGNING_DOMAIN <= data;
    }
  }

  /** The legacy wrapping of a text, with its format byte; the length is written in two bytes. */
  function LegacyWrap(format: byte, text: Bytes): Bytes
  {
    SIGNING_DOMAIN + [0, format] + Le(|text|, 2) + text
  }

  lemma {:induction false} KeysFitExactly(n: nat, b: Bytes)
    ensures GetMany(GetKey, n, b).Got? <==> |b| >= 32 * n
    ensures |b| >= 32 * n ==> GetMany(GetKey, n, b).rest == b[32 * n..]
  {
    if n > 0 && |b| >= 32 {
      KeysFitExactly(n - 1, b[32..]);
      assert |b| >= 32 * n ==> b[32..][32 * (n - 1)..] == b[32 * n..];
    }
  }

  /** What follows the format byte: a signer count and that many keys, then a counted valid message and nothing else. */
  predicate TailValid(format: byte, t: Bytes)
  {
    t != [] &&
    var signers: nat := t[0];
    var start := 1 + 32 * signers;
    |t| >= start + 2 &&
    var message := t[start + 2..];
    && FromLe(t[start..start + 2]) == |message| <= MaxLength(format) && Utf8.Valid(message)
    && (format == RESTRICTED_ASCII ==> PrintableAscii(message))
  }

  lemma SignersFitExactly(t: Bytes)
    requires t != []
    ensures var n: nat := t[0];
            && (GetSigners(t).Got? <==> |t| >= 1 + 32 * n)
            && (|t| >= 1 + 32 * n ==> GetSigners(t).rest == t[1 + 32 * n..])
  {
    var n: nat := t[0];
    KeysFitExactly(n, t[1..]);
    assert |t| >= 1 + 32 * n ==> t[1..][32 * n..] == t[1 + 32 * n..];
  }

  /** A two-byte length followed by as many bytes and no more. */
  function CountedMessage(c: Bytes): Parsed<Bytes>
  {
    var (n, c) :- GetLe(2, c);
    GetBytes(n, c)
  }

  lemma CountedExactly(c: Bytes)
    ensures CountedMessage(c).Got? && CountedMessage(c).rest == [] <==> |c| >= 2 && FromLe(c[..2]) == |c| - 2
    ensures |c| >= 2 && FromLe(c[..2]) == |c| - 2 ==> CountedMessage(c).value == c[2..]
  {
    if |c| >= 2 {
      var n := FromLe(c[..2]);
      assert GetLe(2, c) == Got(n, c[2..]);
      if n == |c| - 2 {
        assert c[2..][..n] == c[2..];
      }
    }
  }

  lemma Slices(t: Bytes, start: nat)
    requires start <= |t|
    ensures start + 2 <= |t| ==> t[start..][..2] == t[start..start + 2] && t[start..][2..] == t[start + 2..]
  {
  }

  /** The rest of a version 0 envelope after its application domain. */
  lemma V0TailExactly(b: Bytes)
    requires |b| >= 33
    ensures GetV0(b).Got? && GetV0(b).rest == [] && ValidV0(GetV0(b).value.0, GetV0(b).value.1) <==>
            b[32] <= EXTENDED_UTF8 && TailValid(b[32], b[33..])
  {
    var t := b[33..];
    assert GetKey(b).rest == b[32..] && b[32..][1..] == t;
    if b[32] <= EXTENDED_UTF8 && t != [] {
      SignersFitExactly(t);
      var start := 1 + 32 * (t[0] as nat);
      if |t| >= start {
        var c := t[start..];
        CountedExactly(c);
        Slices(t, start);
      }
    }
  }

  /** Exactly which legacy-wrapped texts are taken for a current envelope instead. */
  lemma LegacyTextCapturedExactly(format: byte, text: Bytes)
    ensures DecodeOffchain(LegacyWrap(format, text)).Some? <==>
            |text| >= 30 && text[29] <= EXTENDED_UTF8 && TailValid(text[29], text[30..])
  {
    var data := LegacyWrap(format, text);
    var b := data[16..][1..];
    assert data[..16] == SIGNING_DOMAIN && data[16..][0] == 0;
    assert b == [format] + Le(|text|, 2) + text;
    assert |b| == 3 + |text|;
    if |text| >= 30 {
      assert b[32] == text[29] && b[33..] == text[30..];
      V0TailExactly(b);
    }
  }

  /** A wrapped text reaches the legacy decoder exactly unless it is captured; bytes from 3 upwards never are. */
  lemma LegacyTextReachesLegacy(legacy: Bytes -> Option<Bytes>, format: byte, text: Bytes)
    ensures |text| >= 30 && text[29] <= EXTENDED_UTF8 && TailValid(text[29], text[30..]) <==>
            Deserialize(legacy, LegacyWrap(format, text)) != LegacyBranch(legacy, LegacyWrap(format, text))
    ensures (forall i :: 0 <= i < |text| ==> text[i] >= 3) ==>
              Deserialize(legacy, LegacyWrap(format, text)) == LegacyBranch(legacy, LegacyWrap(format, text))
  {
    assert SIGNING_DOMAIN <= LegacyWrap(format, text);
    LegacyTextCapturedExactly(format, text);
  }

  /** Small bytes do make a difference: this wrapped text is taken for an empty version 0 message without signers. */
  lemma SomeLegacyTextIsCaptured()
    ensures var text := seq(29, _ => 0x61) + [1, 0, 0, 0]; DecodeOffchain(LegacyWrap(1, text)).Some?
  {
    var text := seq(29, _ => 0x61) + [1, 0, 0, 0];
    var domain: Pubkey := [1] + Le(33, 2) + seq(29, _ => 0x61);
    var e := V0(domain, [], []);
    assert Le(0, 1) == [0] && Le(0, 2) == [0, 0];
    assert LegacyWrap(1, text) == Encode(e, LIMITED_UTF8);
    EnvelopeRoundTrip(e, LIMITED_UTF8);
  }
}
