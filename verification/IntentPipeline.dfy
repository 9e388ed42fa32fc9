/** From the SDK's draft to the session manager's message, through all three wire formats. */
module IntentPipeline {
  import opened Common
  import opened IntentText
  import opened IntentRoundTrip
  import E = Envelope
  import D = Ed25519
  import C = Constraints
  import Utf8

  /** The program's reading of a verified signature instruction, for any message type: the signer and the message. */
  function ReadIntent<M>(parse: string -> Option<M>, legacy: Bytes -> Option<Bytes>, data: Bytes): Option<(Pubkey, M)>
  {
    match D.DecodeInstruction(legacy, data)
    case Err(_) => None
    case Ok(intent) =>
      var text := Utf8.Decode(E.Payload(intent.message));
      if text.None? || parse(text.value).None? then None else Some((intent.signer, parse(text.value).value))
  }

  lemma ReadsAs<M>(parse: string -> Option<M>, legacy: Bytes -> Option<Bytes>, data: Bytes, wallet: Pubkey,
                   decoded: E.Message, printed: string, message: M)
    requires D.DecodeInstruction(legacy, data) == Ok(D.Intent(wallet, decoded))
    requires E.Payload(decoded) == Utf8.Encode(printed) && parse(printed) == Some(message)
    ensures ReadIntent(parse, legacy, data) == Some((wallet, message))
  {
    Utf8.DecodeInverse(printed);
  }

  function SessionParser(codec: Codec): string -> Option<Message> { s => ParseMessage(codec, s) }

  // ---------- what a wallet signs ----------

  /** A wallet signs the text as it is, in the legacy wrapping, or in an envelope of its own making. */
  datatype SignedForm = Bare | LegacyWrapped(format: byte) | InEnvelope(envelope: E.Envelope, format: byte)

  function Signed(form: SignedForm, text: Bytes): Bytes
  {
    match form
    case Bare => text
    case LegacyWrapped(format) => E.LegacyWrap(format, text)
    case InEnvelope(e, format) => E.Encode(e, format)
  }

  /** The legacy decoder reads the wrapping back; the envelope is valid and carries the text. */
  predicate Carries(legacy: Bytes -> Option<Bytes>, form: SignedForm, text: Bytes)
  {
    match form
    case Bare => true
    case LegacyWrapped(format) => legacy(E.LegacyWrap(format, text)) == Some(text)
    case InEnvelope(e, format) => E.Valid(e, format) && e.message == text
  }

  /** No well-formed text starts with the signing domain, whose first byte is never part of UTF-8. */
  lemma TextIsBare(legacy: Bytes -> Option<Bytes>, text: Bytes)
    requires Utf8.Valid(text)
    ensures E.Deserialize(legacy, text) == Ok(E.Raw(text))
  {
    assert text == [] || text[0] != 0xFF;
    E.RawExactly(legacy, text);
  }

  lemma OpeningByte(printed: string)
    requires OPENING <= printed
    ensures var text := Utf8.Encode(printed); |text| >= 30 && text[29] == 'n' as int
  {
    assert |OPENING| == 39 && OPENING[29] == 'n';
    assert forall i :: 0 <= i < 30 ==> OPENING[i] as int < 0x80;
    Utf8.AsciiInFront(printed, 30);
  }

  /** The thirtieth byte of a printed intent is a letter, so its legacy wrapping is not taken for an envelope. */
  lemma WrappedIntentIsLegacy(legacy: Bytes -> Option<Bytes>, format: byte, text: Bytes)
    requires |text| >= 30 && text[29] > E.EXTENDED_UTF8
    requires legacy(E.LegacyWrap(format, text)) == Some(text)
    ensures E.Deserialize(legacy, E.LegacyWrap(format, text)) == Ok(E.LegacyOffchain(text))
  {
    E.LegacyTextReachesLegacy(legacy, format, text);
  }

  lemma PrintedOpens(codec: Codec, d: Draft)
    ensures OPENING <= PrintDraft(codec, d)
  {
    assert OPENING <= PREFIX;
  }

  function Reading(form: SignedForm, text: Bytes): E.Message
  {
    match form
    case Bare => E.Raw(text)
    case LegacyWrapped(_) => E.LegacyOffchain(text)
    case InEnvelope(e, _) => E.Offchain(e)
  }

  /** The program reads the text back out of what was signed. */
  predicate ReadsBack(legacy: Bytes -> Option<Bytes>, form: SignedForm, text: Bytes)
  {
    E.Deserialize(legacy, Signed(form, text)) == Ok(Reading(form, text)) && E.Payload(Reading(form, text)) == text
  }

  lemma BareReads(legacy: Bytes -> Option<Bytes>, text: Bytes)
    requires Utf8.Valid(text)
    ensures ReadsBack(legacy, Bare, text)
  {
    TextIsBare(legacy, text);
  }

  lemma LegacyReads(legacy: Bytes -> Option<Bytes>, format: byte, text: Bytes)
    requires |text| >= 30 && text[29] > E.EXTENDED_UTF8 && Carries(legacy, LegacyWrapped(format), text)
    ensures ReadsBack(legacy, LegacyWrapped(format), text)
  {
    WrappedIntentIsLegacy(legacy, format, text);
  }

  lemma EnvelopeReads(legacy: Bytes -> Option<Bytes>, e: E.Envelope, format: byte, text: Bytes)
    requires Carries(legacy, InEnvelope(e, format), text)
    ensures ReadsBack(legacy, InEnvelope(e, format), text)
  {
    E.EncodedDeserializes(legacy, e, format);
  }

  lemma SignedTextReads(legacy: Bytes -> Option<Bytes>, text: Bytes, form: SignedForm)
    requires Utf8.Valid(text) && |text| >= 30 && text[29] > E.EXTENDED_UTF8 && Carries(legacy, form, text)
    ensures ReadsBack(legacy, form, text)
  {
    match form
    case Bare => BareReads(legacy, text);
    case LegacyWrapped(format) => LegacyReads(legacy, format, text);
    case InEnvelope(e, format) => EnvelopeReads(legacy, e, format, text);
  }

  lemma DraftText(codec: Codec, d: Draft)
    ensures var text := Utf8.Encode(PrintDraft(codec, d));
            Utf8.Valid(text) && |text| >= 30 && text[29] > E.EXTENDED_UTF8
  {
    PrintedOpens(codec, d);
    OpeningByte(PrintDraft(codec, d));
    Utf8.DecodeInverse(PrintDraft(codec, d));
  }

  // ---------- the whole path ----------

  /**
   * A draft without ambiguous symbols, reserved keys or carriage returns, signed by a wallet as it
   * is, in the legacy wrapping or in an envelope of either version, passes the paymaster's template
   * and is read on chain as the wallet's own draft, whether the envelope lists the wallet or not.
   */
  lemma DraftReachesProgram(codec: Codec, legacy: Bytes -> Option<Bytes>, kit: Bytes -> Option<E.Envelope>,
                            ctx: C.Context, d: Draft, form: SignedForm, wallet: Pubkey, signature: Bytes)
    requires ValidDraft(codec, d)
    requires TokensUnambiguous(codec, d.tokens) && Unreserved(d.extra) && NoReturn(d.extra)
    requires Carries(legacy, form, Utf8.Encode(PrintDraft(codec, d)))
    requires var m := Signed(form, Utf8.Encode(PrintDraft(codec, d)));
             |signature| == 64 && 80 + |m| <= U16_MAX && D.KitFaithful(kit, m)
    ensures var data := D.SdkData(kit, signature, Signed(form, Utf8.Encode(PrintDraft(codec, d))), wallet);
            && C.Accepts(ctx, C.INTENT, C.Instruction(C.Ed25519Program, [], data))
            && D.Verifies(data, wallet, signature, Signed(form, Utf8.Encode(PrintDraft(codec, d))))
            && ReadIntent(SessionParser(codec), legacy, data) == Some((wallet, IntendedMessage(codec, d)))
  {
    var text := Utf8.Encode(PrintDraft(codec, d));
    var m := Signed(form, text);
    var data := D.SdkData(kit, signature, m, wallet);
    DraftText(codec, d);
    var decoded := Reading(form, text);
    SignedTextReads(legacy, text, form);
    D.SdkDataVerifies(kit, signature, m, wallet);
    D.WalletSignsMessage(ctx, legacy, kit, signature, m, wallet, decoded);
    IntentReadExactly(codec, d);
    ReadsAs(SessionParser(codec), legacy, data, wallet, decoded, PrintDraft(codec, d), IntendedMessage(codec, d));
  }
}
