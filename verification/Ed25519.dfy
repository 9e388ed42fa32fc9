/** The signature-verification instruction: built by the SDK, checked by the paymaster, decoded on chain. */
module Ed25519 {
  import opened Common
  import opened Borsh
  import E = Envelope
  import C = Constraints

  const HEADER_LENGTH := 16
  const KEY_LENGTH := 32
  const SIGNATURE_LENGTH := 64

  // ---------- building ----------

  datatype BuildError = WrongSignatureLength | KeyOffsetOutOfBounds

  /** `setUint16` keeps the low sixteen bits; every index means the current instruction. */
  function Header(signatureOffset: nat, keyOffset: nat, messageOffset: nat, messageLength: nat): (h: Bytes)
    ensures |h| == HEADER_LENGTH
  {
    FirstHalf(signatureOffset, keyOffset) + SecondHalf(messageOffset, messageLength)
  }

  function FirstHalf(signatureOffset: nat, keyOffset: nat): Bytes
  {
    [1, 0] + Le(signatureOffset, 2) + Le(U16_MAX, 2) + Le(keyOffset, 2)
  }

  function SecondHalf(messageOffset: nat, messageLength: nat): Bytes
  {
    Le(U16_MAX, 2) + Le(messageOffset, 2) + Le(messageLength, 2) + Le(U16_MAX, 2)
  }

  const MESSAGE_START := HEADER_LENGTH + SIGNATURE_LENGTH

  function InstructionData(signature: Bytes, message: Bytes, keyOffsetInMessage: nat): Bytes
  {
    Header(HEADER_LENGTH, MESSAGE_START + keyOffsetInMessage, MESSAGE_START, |message|) + signature + message
  }

  /** What web3.js builds for a key that is not in the message: the key, the signature, the message. */
  function KeyFirstData(key: Pubkey, signature: Bytes, message: Bytes): Bytes
  {
    Header(HEADER_LENGTH + KEY_LENGTH, HEADER_LENGTH, MESSAGE_START + KEY_LENGTH, |message|)
    + (key + signature) + message
  }

  lemma TwoBytes(value: nat)
    ensures Le(value, 2) == [value % 256, value / 256 % 256]
  {
    assert Le(value, 2) == [value % 256] + Le(value / 256, 1);
    assert Le(value / 256, 1) == [value / 256 % 256];
  }

  method WriteU16(data: array<byte>, at: nat, value: nat)
    requires at + 2 <= data.Length
    modifies data
    ensures data[at..at + 2] == Le(value, 2) == [data[at], data[at + 1]]
    ensures forall i :: 0 <= i < data.Length && (i < at || i >= at + 2) ==> data[i] == old(data[i])
  {
    data[at] := value % 256;
    data[at + 1] := value / 256 % 256;
    TwoBytes(value);
  }

  method WriteBytes(data: array<byte>, at: nat, bytes: Bytes)
    requires at + |bytes| <= data.Length
    modifies data
    ensures data[at..at + |bytes|] == bytes
    ensures forall i :: 0 <= i < data.Length && (i < at || i >= at + |bytes|) ==> data[i] == old(data[i])
  {
    for k := 0 to |bytes|
      invariant forall i :: 0 <= i < k ==> data[at + i] == bytes[i]
      invariant forall i :: 0 <= i < data.Length && (i < at || i >= at + k) ==> data[i] == old(data[i])
    {
      data[at + k] := bytes[k];
    }
  }

  method WriteFirstHalf(data: array<byte>, keyOffset: nat)
    requires data.Length >= HEADER_LENGTH
    modifies data
    ensures data[..8] == FirstHalf(HEADER_LENGTH, keyOffset)
  {
    data[0] := 1;
    data[1] := 0;
    WriteU16(data, 2, HEADER_LENGTH);
    WriteU16(data, 4, U16_MAX);
    WriteU16(data, 6, keyOffset);
    assert data[..8] == [1, 0] + [data[2], data[3]] + [data[4], data[5]] + [data[6], data[7]];
  }

  method WriteSecondHalf(data: array<byte>, messageLength: nat)
    requires data.Length >= HEADER_LENGTH
    modifies data
    ensures data[8..16] == SecondHalf(MESSAGE_START, messageLength) && data[..8] == old(data[..8])
  {
    WriteU16(data, 8, U16_MAX);
    WriteU16(data, 10, MESSAGE_START);
    WriteU16(data, 12, messageLength);
    WriteU16(data, 14, U16_MAX);
    assert data[8..16] ==
      [data[8], data[9]] + [data[10], data[11]] + [data[12], data[13]] + [data[14], data[15]];
  }

  method WriteHeader(data: array<byte>, keyOffset: nat, messageLength: nat)
    requires data.Length >= HEADER_LENGTH
    modifies data
    ensures data[..HEADER_LENGTH] == Header(HEADER_LENGTH, keyOffset, MESSAGE_START, messageLength)
  {
    WriteFirstHalf(data, keyOffset);
    WriteSecondHalf(data, messageLength);
    assert data[..HEADER_LENGTH] == data[..8] + data[8..16];
  }

  /** Writes the instruction into a fresh buffer, as the SDK does. */
  method BuildWithOffsets(signature: Bytes, message: Bytes, keyOffsetInMessage: nat)
    returns (r: Result<Bytes, BuildError>)
    ensures r == if |signature| != 64 then Err(WrongSignatureLength)
                 else if keyOffsetInMessage + KEY_LENGTH > |message| then Err(KeyOffsetOutOfBounds)
                 else Ok(InstructionData(signature, message, keyOffsetInMessage))
  {
    if |signature| != SIGNATURE_LENGTH {
      return Err(WrongSignatureLength);
    }
    if keyOffsetInMessage + KEY_LENGTH > |message| {
      return Err(KeyOffsetOutOfBounds);
    }
    var start := MESSAGE_START;
    var data := new byte[start + |message|](_ => 0);
    WriteHeader(data, start + keyOffsetInMessage, |message|);
    ghost var header := data[..HEADER_LENGTH];
    WriteBytes(data, HEADER_LENGTH, signature);
    WriteBytes(data, start, message);
    assert data[..HEADER_LENGTH] == header;
    assert data[HEADER_LENGTH..start] == signature;
    assert data[start..start + |message|] == message;
    assert data[..] == data[..HEADER_LENGTH] + data[HEADER_LENGTH..start] + data[start..start + |message|];
    r := Ok(data[..]);
  }

  // ---------- decoding ----------

  datatype HeaderFields = HeaderFields(
    numSignatures: nat, padding: nat, signatureOffset: nat, signatureIndex: nat, keyOffset: nat,
    keyIndex: nat, messageOffset: nat, messageSize: nat, messageIndex: nat)

  datatype IntentError = DeserializeFailed | UnexpectedHeader

  function ReadHeader(h: Bytes): HeaderFields
    requires |h| == HEADER_LENGTH
  {
    HeaderFields(h[0], h[1], FromLe(h[2..4]), FromLe(h[4..6]), FromLe(h[6..8]), FromLe(h[8..10]),
                 FromLe(h[10..12]), FromLe(h[12..14]), FromLe(h[14..16]))
  }

  predicate CheckHeader(h: HeaderFields)
  {
    h.numSignatures == 1 && h.padding == 0 && h.signatureIndex == U16_MAX && h.keyIndex == U16_MAX
      && h.messageIndex == U16_MAX
  }

  /** Offsets count from the start of the instruction; none may point into the header. */
  function SliceAt(body: Bytes, offset: nat, length: nat): (r: Option<Bytes>)
    ensures r.Some? ==> |r.value| == length
  {
    if offset < HEADER_LENGTH || offset - HEADER_LENGTH + length > |body| then None
    else Some(body[offset - HEADER_LENGTH..offset - HEADER_LENGTH + length])
  }

  datatype Intent = Intent(signer: Pubkey, message: E.Message)

  type MessageReader = Bytes -> Result<E.Message, E.MessageError>

  /** The key and the message wherever the header says they are, the message as `read` takes it. */
  function DecodeWith(read: MessageReader, data: Bytes): Result<Intent, IntentError>
  {
    if |data| < HEADER_LENGTH then Err(DeserializeFailed)
    else
      var header, body := ReadHeader(data[..HEADER_LENGTH]), data[HEADER_LENGTH..];
      var key := SliceAt(body, header.keyOffset, KEY_LENGTH);
      var message := SliceAt(body, header.messageOffset, header.messageSize);
      if key.None? || message.None? then Err(DeserializeFailed)
      else
        var decoded := read(message.value);
        if decoded.Err? then Err(DeserializeFailed)
        else if !CheckHeader(header) then Err(UnexpectedHeader)
        else Ok(Intent(key.value, decoded.value))
  }

  function Reader(legacy: Bytes -> Option<Bytes>): MessageReader { b => E.Deserialize(legacy, b) }

  function DecodeInstruction(legacy: Bytes -> Option<Bytes>, data: Bytes): Result<Intent, IntentError>
  {
    DecodeWith(Reader(legacy), data)
  }

  // ---------- exactly what is accepted ----------

  /** Key and message stand inside the data, behind the header, and the message can be read. */
  predicate ReadableAt(read: MessageReader, data: Bytes, key: nat, start: nat, length: nat)
  {
    && 16 <= key && key + 32 <= |data|
    && 16 <= start && start + length <= |data| && read(data[start..start + length]).Ok?
  }

  /** The header names them in its little-endian fields. */
  predicate Readable(read: MessageReader, data: Bytes)
  {
    |data| >= 16 && ReadableAt(read, data, FromLe(data[6..8]), FromLe(data[10..12]), FromLe(data[12..14]))
  }

  lemma SliceIsAt(data: Bytes, offset: nat, length: nat)
    requires |data| >= HEADER_LENGTH
    ensures SliceAt(data[HEADER_LENGTH..], offset, length) ==
            if offset >= 16 && offset + length <= |data| then Some(data[offset..offset + length]) else None
  {
    if offset >= 16 && offset + length <= |data| {
      assert data[HEADER_LENGTH..][offset - 16..offset - 16 + length] == data[offset..offset + length];
    }
  }

  lemma HeaderBytes(data: Bytes)
    requires |data| >= 16
    ensures var h := ReadHeader(data[..16]);
            && h.keyOffset == FromLe(data[6..8]) && h.messageOffset == FromLe(data[10..12])
            && h.messageSize == FromLe(data[12..14])
            && (CheckHeader(h) <==>
                && data[0] == 1 && data[1] == 0
                && FromLe(data[4..6]) == U16_MAX && FromLe(data[8..10]) == U16_MAX && FromLe(data[14..16]) == U16_MAX)
  {
    var h := data[..16];
    assert h[4..6] == data[4..6] && h[6..8] == data[6..8] && h[8..10] == data[8..10];
    assert h[10..12] == data[10..12] && h[12..14] == data[12..14] && h[14..16] == data[14..16];
  }

  predicate SelfContained(data: Bytes)
    requires |data| >= 16
  {
    && data[0] == 1 && data[1] == 0
    && FromLe(data[4..6]) == 0xFFFF && FromLe(data[8..10]) == 0xFFFF && FromLe(data[14..16]) == 0xFFFF
  }

  lemma DecodesWith(read: MessageReader, data: Bytes, h: HeaderFields)
    requires |data| >= 16 && h == ReadHeader(data[..16])
    ensures var readable := ReadableAt(read, data, h.keyOffset, h.messageOffset, h.messageSize);
            var r := DecodeWith(read, data);
            && (r.Ok? <==> readable && CheckHeader(h))
            && (r == Err(DeserializeFailed) <==> !readable)
            && (r.Ok? ==>
                && r.value.signer == data[h.keyOffset..h.keyOffset + 32]
                && read(data[h.messageOffset..h.messageOffset + h.messageSize]) == Ok(r.value.message))
  {
    SliceIsAt(data, h.keyOffset, KEY_LENGTH);
    SliceIsAt(data, h.messageOffset, h.messageSize);
  }

  /**
   * Exactly the readable instructions with one signature whose key, signature and message all lie in
   * the instruction itself are accepted, and key and message are the slices the header names.
   */
  lemma ReadsExactly(read: MessageReader, data: Bytes)
    ensures DecodeWith(read, data).Ok? <==> Readable(read, data) && SelfContained(data)
    ensures DecodeWith(read, data) == Err(DeserializeFailed) <==> !Readable(read, data)
    ensures DecodeWith(read, data).Ok? ==>
              var intent := DecodeWith(read, data).value;
              var key, start, length := FromLe(data[6..8]), FromLe(data[10..12]), FromLe(data[12..14]);
              intent.signer == data[key..key + 32] && read(data[start..start + length]) == Ok(intent.message)
  {
    if |data| >= 16 {
      HeaderBytes(data);
      DecodesWith(read, data, ReadHeader(data[..16]));
    }
  }

  /** The program's decoder is that reading of the messages it knows. */
  lemma DecodesExactly(legacy: Bytes -> Option<Bytes>, data: Bytes)
    ensures var read: MessageReader := b => E.Deserialize(legacy, b);
            var r := DecodeInstruction(legacy, data);
            && (r.Ok? <==> Readable(read, data) && SelfContained(data))
            && (r == Err(DeserializeFailed) <==> !Readable(read, data))
            && (r.Ok? ==>
                var key, start, length := FromLe(data[6..8]), FromLe(data[10..12]), FromLe(data[12..14]);
                r.value.signer == data[key..key + 32] && read(data[start..start + length]) == Ok(r.value.message))
  {
    ReadsExactly(Reader(legacy), data);
  }

  /** What the program decodes, the paymaster's intent template accepts. */
  lemma DecodedPassesTemplate(ctx: C.Context, legacy: Bytes -> Option<Bytes>, data: Bytes)
    requires DecodeInstruction(legacy, data).Ok?
    ensures C.Accepts(ctx, C.INTENT, C.Instruction(C.Ed25519Program, [], data))
  {
    ReadsExactly(Reader(legacy), data);
    C.IntentTemplate(ctx, C.Instruction(C.Ed25519Program, [], data));
  }

  // ---------- the three agree ----------

  lemma FirstHalfReads(signatureOffset: nat, keyOffset: nat)
    requires signatureOffset <= U16_MAX && keyOffset <= U16_MAX
    ensures var a := FirstHalf(signatureOffset, keyOffset);
            && |a| == 8 && a[0] == 1 && a[1] == 0
            && FromLe(a[2..4]) == signatureOffset && FromLe(a[4..6]) == U16_MAX && FromLe(a[6..8]) == keyOffset
  {
    var a := FirstHalf(signatureOffset, keyOffset);
    assert a[2..4] == Le(signatureOffset, 2) && a[4..6] == Le(U16_MAX, 2) && a[6..8] == Le(keyOffset, 2);
    Widths();
    LeRoundTrip(signatureOffset, 2);
    LeRoundTrip(U16_MAX, 2);
    LeRoundTrip(keyOffset, 2);
  }

  lemma SecondHalfReads(messageOffset: nat, messageLength: nat)
    requires messageOffset <= U16_MAX && messageLength <= U16_MAX
    ensures var b := SecondHalf(messageOffset, messageLength);
            && |b| == 8 && FromLe(b[0..2]) == U16_MAX && FromLe(b[2..4]) == messageOffset
            && FromLe(b[4..6]) == messageLength && FromLe(b[6..8]) == U16_MAX
  {
    var b := SecondHalf(messageOffset, messageLength);
    assert b[0..2] == Le(U16_MAX, 2) && b[2..4] == Le(messageOffset, 2);
    assert b[4..6] == Le(messageLength, 2) && b[6..8] == Le(U16_MAX, 2);
    Widths();
    LeRoundTrip(messageOffset, 2);
    LeRoundTrip(U16_MAX, 2);
    LeRoundTrip(messageLength, 2);
  }

  lemma HeaderInverse(signatureOffset: nat, keyOffset: nat, messageOffset: nat, messageLength: nat)
    requires signatureOffset <= U16_MAX && keyOffset <= U16_MAX && messageOffset <= U16_MAX && messageLength <= U16_MAX
    ensures ReadHeader(Header(signatureOffset, keyOffset, messageOffset, messageLength)) ==
            HeaderFields(1, 0, signatureOffset, U16_MAX, keyOffset, U16_MAX, messageOffset, messageLength, U16_MAX)
  {
    var a, b := FirstHalf(signatureOffset, keyOffset), SecondHalf(messageOffset, messageLength);
    var h := a + b;
    FirstHalfReads(signatureOffset, keyOffset);
    SecondHalfReads(messageOffset, messageLength);
    assert h[2..4] == a[2..4] && h[4..6] == a[4..6] && h[6..8] == a[6..8];
    assert h[8..10] == b[0..2] && h[10..12] == b[2..4] && h[12..14] == b[4..6] && h[14..16] == b[6..8];
  }

  /** Decoding reads the key and the message wherever the header says they are. */
  lemma DecodesAs(legacy: Bytes -> Option<Bytes>, header: Bytes, body: Bytes, signatureOffset: nat, keyOffset: nat,
                  messageOffset: nat, key: Pubkey, message: Bytes, decoded: E.Message)
    requires signatureOffset <= U16_MAX && keyOffset <= U16_MAX && messageOffset <= U16_MAX && |message| <= U16_MAX
    requires header == Header(signatureOffset, keyOffset, messageOffset, |message|)
    requires SliceAt(body, keyOffset, KEY_LENGTH) == Some(key)
    requires SliceAt(body, messageOffset, |message|) == Some(message)
    requires E.Deserialize(legacy, message) == Ok(decoded)
    ensures DecodeInstruction(legacy, header + body) == Ok(Intent(key, decoded))
  {
    HeaderInverse(signatureOffset, keyOffset, messageOffset, |message|);
    assert (header + body)[..HEADER_LENGTH] == header && (header + body)[HEADER_LENGTH..] == body;
  }

  lemma SliceAfter(before: Bytes, message: Bytes, offset: nat, length: nat)
    requires offset + length <= |message|
    ensures SliceAt(before + message, HEADER_LENGTH + |before| + offset, length) ==
            Some(message[offset..offset + length])
  {
    var at := |before| + offset;
    assert (before + message)[at..at + length] == message[offset..offset + length];
  }

  lemma WholeAfter(before: Bytes, message: Bytes)
    ensures SliceAt(before + message, HEADER_LENGTH + |before|, |message|) == Some(message)
  {
    assert (before + message)[|before|..|before| + |message|] == message;
  }

  /** What was written comes back: the key at the offset, and the whole message. */
  lemma InstructionInverse(legacy: Bytes -> Option<Bytes>, signature: Bytes, message: Bytes, offset: nat,
                           decoded: E.Message)
    requires |signature| == 64 && offset + KEY_LENGTH <= |message|
    requires 80 + |message| <= U16_MAX
    requires E.Deserialize(legacy, message) == Ok(decoded)
    ensures DecodeInstruction(legacy, InstructionData(signature, message, offset)) ==
            Ok(Intent(message[offset..offset + KEY_LENGTH], decoded))
  {
    var header := Header(HEADER_LENGTH, MESSAGE_START + offset, MESSAGE_START, |message|);
    var body := signature + message;
    var key := message[offset..offset + KEY_LENGTH];
    assert InstructionData(signature, message, offset) == header + body;
    SliceAfter(signature, message, offset, KEY_LENGTH);
    WholeAfter(signature, message);
    DecodesAs(legacy, header, body, HEADER_LENGTH, MESSAGE_START + offset, MESSAGE_START, key, message, decoded);
  }

  /** The same when the key stands in front. */
  lemma KeyFirstInverse(legacy: Bytes -> Option<Bytes>, key: Pubkey, signature: Bytes, message: Bytes,
                        decoded: E.Message)
    requires |signature| == 64 && |message| <= U16_MAX
    requires E.Deserialize(legacy, message) == Ok(decoded)
    ensures DecodeInstruction(legacy, KeyFirstData(key, signature, message)) == Ok(Intent(key, decoded))
  {
    var header := Header(HEADER_LENGTH + KEY_LENGTH, HEADER_LENGTH, MESSAGE_START + KEY_LENGTH, |message|);
    var body := key + signature + message;
    assert KeyFirstData(key, signature, message) == header + body;
    assert body[0..KEY_LENGTH] == key;
    WholeAfter(key + signature, message);
    DecodesAs(legacy, header, body, HEADER_LENGTH + KEY_LENGTH, HEADER_LENGTH, MESSAGE_START + KEY_LENGTH,
              key, message, decoded);
  }

  /** Every instruction that starts with such a header satisfies the paymaster's intent template. */
  lemma HeaderPassesTemplate(ctx: C.Context, a: Bytes, b: Bytes, signatureOffset: nat, keyOffset: nat,
                             messageOffset: nat, messageLength: nat, body: Bytes)
    requires a == FirstHalf(signatureOffset, keyOffset) && b == SecondHalf(messageOffset, messageLength)
    ensures C.Accepts(ctx, C.INTENT, C.Instruction(C.Ed25519Program, [], a + b + body))
  {
    var data := a + b + body;
    Widths();
    LeRoundTrip(U16_MAX, 2);
    assert data[4..6] == Le(U16_MAX, 2) && data[8..10] == Le(U16_MAX, 2) && data[14..16] == Le(U16_MAX, 2);
    C.IntentTemplate(ctx, C.Instruction(C.Ed25519Program, [], data));
  }

  /** Both forms of the built instruction satisfy the paymaster's intent template. */
  lemma InstructionPassesTemplate(ctx: C.Context, key: Pubkey, signature: Bytes, message: Bytes, offset: nat)
    ensures C.Accepts(ctx, C.INTENT, C.Instruction(C.Ed25519Program, [], InstructionData(signature, message, offset)))
    ensures C.Accepts(ctx, C.INTENT, C.Instruction(C.Ed25519Program, [], KeyFirstData(key, signature, message)))
  {
    var a, b := FirstHalf(HEADER_LENGTH, MESSAGE_START + offset), SecondHalf(MESSAGE_START, |message|);
    assert InstructionData(signature, message, offset) == a + b + (signature + message);
    HeaderPassesTemplate(ctx, a, b, HEADER_LENGTH, MESSAGE_START + offset, MESSAGE_START, |message|,
                         signature + message);
    var c, d := FirstHalf(HEADER_LENGTH + KEY_LENGTH, HEADER_LENGTH), SecondHalf(MESSAGE_START + KEY_LENGTH, |message|);
    assert KeyFirstData(key, signature, message) == c + d + (key + signature + message);
    HeaderPassesTemplate(ctx, c, d, HEADER_LENGTH + KEY_LENGTH, HEADER_LENGTH, MESSAGE_START + KEY_LENGTH, |message|,
                         key + signature + message);
  }

  predicate KeyAt(m: Bytes, offset: nat, key: Pubkey)
  {
    offset + KEY_LENGTH <= |m| && m[offset..offset + KEY_LENGTH] == key
  }

  lemma KeySigns(ctx: C.Context, legacy: Bytes -> Option<Bytes>, signature: Bytes, m: Bytes, offset: nat,
                 wallet: Pubkey, decoded: E.Message)
    requires |signature| == 64 && 80 + |m| <= U16_MAX
    requires KeyAt(m, offset, wallet) && E.Deserialize(legacy, m) == Ok(decoded)
    ensures C.Accepts(ctx, C.INTENT, C.Instruction(C.Ed25519Program, [], InstructionData(signature, m, offset)))
    ensures DecodeInstruction(legacy, InstructionData(signature, m, offset)) == Ok(Intent(wallet, decoded))
  {
    InstructionInverse(legacy, signature, m, offset, decoded);
    InstructionPassesTemplate(ctx, wallet, signature, m, offset);
  }

  // ---------- finding the wallet in the envelope ----------

  function IndexOf(keys: seq<Pubkey>, key: Pubkey): (i: nat)
    requires key in keys
    ensures i < |keys| && keys[i] == key && key !in keys[..i]
  {
    if keys[0] == key then 0 else 1 + IndexOf(keys[1..], key)
  }

  const V0_SIGNERS := 16 + 1 + 32 + 1 + 1
  const V1_SIGNERS := 16 + 1 + 1

  /** `getOffchainMessagePublicKeyOffset`, when the wallet is among the signers. */
  function KeyOffset(e: E.Envelope, wallet: Pubkey): nat
    requires wallet in e.signers
  {
    (if e.V1? then V1_SIGNERS else V0_SIGNERS) + IndexOf(e.signers, wallet) * KEY_LENGTH
  }

  lemma {:induction false} KeyInList(keys: seq<Pubkey>, i: nat, rest: Bytes)
    requires i < |keys|
    ensures var b := PutMany(PutKey, keys, rest); 32 * i + 32 <= |b| && b[32 * i..32 * i + 32] == keys[i]
  {
    var tail := PutMany(PutKey, keys[1..], rest);
    var b := PutMany(PutKey, keys, rest);
    assert b == keys[0] + tail;
    if i > 0 {
      KeyInList(keys[1..], i - 1, rest);
      assert b[32 * i..32 * i + 32] == tail[32 * (i - 1)..32 * (i - 1) + 32];
    }
  }

  lemma KeyAfter(head: Bytes, keys: seq<Pubkey>, i: nat, rest: Bytes)
    requires i < |keys|
    ensures KeyAt(head + PutMany(PutKey, keys, rest), |head| + i * KEY_LENGTH, keys[i])
  {
    var list := PutMany(PutKey, keys, rest);
    KeyInList(keys, i, rest);
    var at := |head| + 32 * i;
    assert (head + list)[at..at + 32] == list[32 * i..32 * i + 32];
  }

  lemma V0Head(e: E.Envelope, format: byte)
    requires e.V0? && |e.signers| <= 255
    ensures E.Encode(e, format) == (E.SIGNING_DOMAIN + [0] + e.applicationDomain + [format, |e.signers|])
                                   + PutMany(PutKey, e.signers, PutLe(|e.message|, 2, e.message))
  {
    var list := PutMany(PutKey, e.signers, PutLe(|e.message|, 2, e.message));
    assert Le(|e.signers|, 1) == [|e.signers|];
    assert [format] + ([|e.signers|] + list) == [format, |e.signers|] + list;
    assert [0] + (e.applicationDomain + ([format, |e.signers|] + list)) ==
      [0] + e.applicationDomain + [format, |e.signers|] + list;
  }

  lemma V1Head(e: E.Envelope, format: byte)
    requires e.V1? && |e.signers| <= 255
    ensures E.Encode(e, format) == (E.SIGNING_DOMAIN + [1, |e.signers|]) + PutMany(PutKey, e.signers, e.message)
  {
    assert Le(|e.signers|, 1) == [|e.signers|];
  }

  lemma KeyInV0(e: E.Envelope, format: byte, i: nat)
    requires e.V0? && |e.signers| <= 255 && i < |e.signers|
    ensures KeyAt(E.Encode(e, format), V0_SIGNERS + i * KEY_LENGTH, e.signers[i])
  {
    V0Head(e, format);
    var head := E.SIGNING_DOMAIN + [0] + e.applicationDomain + [format, |e.signers|];
    assert |head| == V0_SIGNERS;
    KeyAfter(head, e.signers, i, PutLe(|e.message|, 2, e.message));
  }

  lemma KeyInV1(e: E.Envelope, format: byte, i: nat)
    requires e.V1? && |e.signers| <= 255 && i < |e.signers|
    ensures KeyAt(E.Encode(e, format), V1_SIGNERS + i * KEY_LENGTH, e.signers[i])
  {
    V1Head(e, format);
    var head := E.SIGNING_DOMAIN + [1, |e.signers|];
    assert |head| == V1_SIGNERS;
    KeyAfter(head, e.signers, i, e.message);
  }

  lemma KeyAtOffset(e: E.Envelope, format: byte, wallet: Pubkey)
    requires E.Valid(e, format) && wallet in e.signers
    ensures KeyAt(E.Encode(e, format), KeyOffset(e, wallet), wallet)
  {
    var i := IndexOf(e.signers, wallet);
    if e.V0? {
      KeyInV0(e, format, i);
    } else {
      KeyInV1(e, format, i);
    }
  }

  /**
   * For every signature and every valid envelope that lists the wallet and fits, the
   * instruction the SDK builds passes the paymaster's template and decodes on chain to the
   * wallet as signer and to exactly that envelope.
   */
  lemma WalletSignsEnvelope(ctx: C.Context, legacy: Bytes -> Option<Bytes>, signature: Bytes, e: E.Envelope,
                            format: byte, m: Bytes, wallet: Pubkey)
    requires |signature| == 64
    requires E.Valid(e, format) && m == E.Encode(e, format) && wallet in e.signers
    requires 80 + |m| <= U16_MAX
    ensures var data := InstructionData(signature, m, KeyOffset(e, wallet));
            && C.Accepts(ctx, C.INTENT, C.Instruction(C.Ed25519Program, [], data))
            && DecodeInstruction(legacy, data) == Ok(Intent(wallet, E.Offchain(e)))
  {
    E.EncodedDeserializes(legacy, e, format);
    WalletSigns(ctx, legacy, signature, e, format, m, wallet, E.Offchain(e));
  }

  /** With the wallet's key at its place in the envelope, the message reads as it would alone. */
  lemma WalletSigns(ctx: C.Context, legacy: Bytes -> Option<Bytes>, signature: Bytes, e: E.Envelope, format: byte,
                    m: Bytes, wallet: Pubkey, decoded: E.Message)
    requires |signature| == 64
    requires E.Valid(e, format) && m == E.Encode(e, format) && wallet in e.signers
    requires 80 + |m| <= U16_MAX && E.Deserialize(legacy, m) == Ok(decoded)
    ensures var data := InstructionData(signature, m, KeyOffset(e, wallet));
            && C.Accepts(ctx, C.INTENT, C.Instruction(C.Ed25519Program, [], data))
            && DecodeInstruction(legacy, data) == Ok(Intent(wallet, decoded))
  {
    var offset := KeyOffset(e, wallet);
    assert KeyAt(m, offset, wallet) by {
      KeyAtOffset(e, format, wallet);
    }
    KeySigns(ctx, legacy, signature, m, offset, wallet, decoded);
  }

  // ---------- either form of the instruction ----------

  /** What the SDK builds: `kit` is the offchain message decoder it asks for the signers of a message. */
  function SdkData(kit: Bytes -> Option<E.Envelope>, signature: Bytes, m: Bytes, wallet: Pubkey): Bytes
  {
    match kit(m)
    case None => KeyFirstData(wallet, signature, m)
    case Some(e) =>
      if wallet in e.signers then InstructionData(signature, m, KeyOffset(e, wallet))
      else KeyFirstData(wallet, signature, m)
  }

  /** If that decoder finds an envelope in `m`, then `m` is its encoding. */
  ghost predicate KitFaithful(kit: Bytes -> Option<E.Envelope>, m: Bytes)
  {
    kit(m).Some? ==> exists format :: E.Valid(kit(m).value, format) && m == E.Encode(kit(m).value, format)
  }

  /** The signature the header names is `signature`, over `message`, under `key`: what the precompile verifies. */
  predicate Verifies(data: Bytes, key: Pubkey, signature: Bytes, message: Bytes)
  {
    |data| >= 16 &&
    var s, k, m, n := FromLe(data[2..4]), FromLe(data[6..8]), FromLe(data[10..12]), FromLe(data[12..14]);
    && s + 64 <= |data| && data[s..s + 64] == signature
    && k + 32 <= |data| && data[k..k + 32] == key
    && m + n <= |data| && data[m..m + n] == message
  }

  lemma HeaderNames(header: Bytes, body: Bytes, s: nat, k: nat, m: nat, n: nat)
    requires s <= U16_MAX && k <= U16_MAX && m <= U16_MAX && n <= U16_MAX && header == Header(s, k, m, n)
    ensures var data := header + body;
            && FromLe(data[2..4]) == s && FromLe(data[6..8]) == k && FromLe(data[10..12]) == m
              && FromLe(data[12..14]) == n
  {
    HeaderInverse(s, k, m, n);
    var data := header + body;
    assert data[2..4] == header[2..4] && data[6..8] == header[6..8];
    assert data[10..12] == header[10..12] && data[12..14] == header[12..14];
  }

  lemma OffsetsVerify(signature: Bytes, message: Bytes, offset: nat, key: Pubkey)
    requires |signature| == 64 && 80 + |message| <= U16_MAX && KeyAt(message, offset, key)
    ensures Verifies(InstructionData(signature, message, offset), key, signature, message)
  {
    var header := Header(16, 80 + offset, 80, |message|);
    var body := signature + message;
    HeaderNames(header, body, 16, 80 + offset, 80, |message|);
    var data := header + body;
    assert InstructionData(signature, message, offset) == data;
    assert data[16..80] == signature && data[80..80 + |message|] == message;
    assert data[80 + offset..80 + offset + 32] == message[offset..offset + 32];
  }

  lemma KeyFirstVerifies(key: Pubkey, signature: Bytes, message: Bytes)
    requires |signature| == 64 && |message| <= U16_MAX
    ensures Verifies(KeyFirstData(key, signature, message), key, signature, message)
  {
    var header := Header(48, 16, 112, |message|);
    var body := key + signature + message;
    HeaderNames(header, body, 48, 16, 112, |message|);
    var data := header + body;
    assert KeyFirstData(key, signature, message) == data;
    assert data[16..48] == key && data[48..112] == signature && data[112..112 + |message|] == message;
  }

  /** Whichever form the SDK chooses, what the precompile verifies is the wallet's signature over the whole message. */
  lemma SdkDataVerifies(kit: Bytes -> Option<E.Envelope>, signature: Bytes, m: Bytes, wallet: Pubkey)
    requires |signature| == 64 && 80 + |m| <= U16_MAX && KitFaithful(kit, m)
    ensures Verifies(SdkData(kit, signature, m, wallet), wallet, signature, m)
  {
    if kit(m).Some? && wallet in kit(m).value.signers {
      var format :| E.Valid(kit(m).value, format) && m == E.Encode(kit(m).value, format);
      KeyAtOffset(kit(m).value, format, wallet);
      OffsetsVerify(signature, m, KeyOffset(kit(m).value, wallet), wallet);
    } else {
      KeyFirstVerifies(wallet, signature, m);
    }
  }

  /**
   * Whatever message the program can read, in an envelope that lists the wallet or not, bare or
   * in the legacy wrapping: the SDK's instruction passes the template and decodes to the wallet
   * as signer and to that message.
   */
  lemma WalletSignsMessage(ctx: C.Context, legacy: Bytes -> Option<Bytes>, kit: Bytes -> Option<E.Envelope>,
                           signature: Bytes, m: Bytes, wallet: Pubkey, decoded: E.Message)
    requires |signature| == 64 && 80 + |m| <= U16_MAX
    requires KitFaithful(kit, m) && E.Deserialize(legacy, m) == Ok(decoded)
    ensures var data := SdkData(kit, signature, m, wallet);
            && C.Accepts(ctx, C.INTENT, C.Instruction(C.Ed25519Program, [], data))
            && DecodeInstruction(legacy, data) == Ok(Intent(wallet, decoded))
  {
    if kit(m).Some? && wallet in kit(m).value.signers {
      var format :| E.Valid(kit(m).value, format) && m == E.Encode(kit(m).value, format);
      WalletSigns(ctx, legacy, signature, kit(m).value, format, m, wallet, decoded);
    } else {
      KeyFirstInverse(legacy, wallet, signature, m, decoded);
      InstructionPassesTemplate(ctx, wallet, signature, m, 0);
    }
  }
}
