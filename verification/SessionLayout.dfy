/**
 * The byte layout of a session account: eight discriminator bytes, the sponsor, the
 * major version and the versioned session information. One reader serves both layouts:
 * it is given the readers of what follows the expiration of an active session.
 */
module SessionLayout {
  import opened Common
  import opened Sessions
  import opened Borsh
  import Utf8

  const DISCRIMINATOR: Bytes := [243, 81, 72, 115, 214, 188, 72, 144]

  // ---------- readers ----------

  function GetProgram(b: Bytes): Parsed<AuthorizedProgram>
  {
    var (programId, b) :- GetKey(b);
    var (signerPda, b) :- GetKey(b);
    Got(AuthorizedProgram(programId, signerPda), b)
  }

  function GetPrograms(b: Bytes): Parsed<AuthorizedPrograms>
  {
    var (tag, b) :- GetByte(b);
    if tag == 0 then
      var (programs, b) :- GetVec(GetProgram, b);
      Got(SpecificPrograms(programs), b)
    else if tag == 1 then Got(AllPrograms, b)
    else Fail
  }

  function GetTokens(b: Bytes): Parsed<AuthorizedTokens>
  {
    var (tag, b) :- GetByte(b);
    if tag == 0 then Got(SpecificTokens, b) else if tag == 1 then Got(AllTokens, b) else Fail
  }

  function GetMints(b: Bytes): Parsed<AuthorizedTokensWithMints>
  {
    var (tag, b) :- GetByte(b);
    if tag == 0 then
      var (mints, b) :- GetVec(GetKey, b);
      Got(SpecificMints(mints), b)
    else if tag == 1 then Got(AllMints, b)
    else Fail
  }

  function GetExtraItem(b: Bytes): Parsed<ExtraItem>
  {
    var (key, b) :- GetString(b);
    var (value, b) :- GetString(b);
    Got(ExtraItem(key, value), b)
  }

  function GetGrants<T>(getTokens: Reader<T>, b: Bytes): Parsed<Grants<T>>
  {
    var (programs, b) :- GetPrograms(b);
    var (tokens, b) :- getTokens(b);
    var (extra, b) :- GetVec(GetExtraItem, b);
    Got(Grants(programs, tokens, extra), b)
  }

  function GetPlainGrants(b: Bytes): Parsed<PlainGrants> { GetGrants(GetTokens, b) }

  function GetMintGrants(b: Bytes): Parsed<MintGrants> { GetGrants(GetMints, b) }

  /** What the system program reads after the expiration: nothing. */
  function GetNothing(b: Bytes): Parsed<()> { Got((), b) }

  function GetActive<G>(getGrants: Reader<G>, b: Bytes): Parsed<Active<G>>
  {
    var (user, b) :- GetKey(b);
    var (expiration, b) :- GetI64(b);
    var (grants, b) :- getGrants(b);
    Got(Active(user, expiration, grants), b)
  }

  function GetRevoked(b: Bytes): Parsed<Revoked>
  {
    var (user, b) :- GetKey(b);
    var (expiration, b) :- GetI64(b);
    var (tokens, b) :- GetMints(b);
    Got(Revoked(user, expiration, tokens), b)
  }

  function GetV2<A, B>(getA: Reader<A>, b: Bytes): Parsed<SessionInfo<A, B>>
  {
    var (state, b) :- GetByte(b);
    if state == 0 then
      var (e, b) :- GetI64(b);
      Got(V2Revoked(e), b)
    else if state == 1 then
      var (a, b) :- GetActive(getA, b);
      Got(V2Active(a), b)
    else Fail
  }

  function GetV3<A, B>(getB: Reader<B>, b: Bytes): Parsed<SessionInfo<A, B>>
  {
    var (state, b) :- GetByte(b);
    if state == 0 then
      var (r, b) :- GetRevoked(b);
      Got(V3Revoked(r), b)
    else if state == 1 then
      var (a, b) :- GetActive(getB, b);
      Got(V3Active(a), b)
    else Fail
  }

  function GetV4<A, B>(getB: Reader<B>, b: Bytes): Parsed<SessionInfo<A, B>>
  {
    var (state, b) :- GetByte(b);
    if state == 0 then
      var (r, b) :- GetRevoked(b);
      Got(V4Revoked(r), b)
    else if state == 1 then
      var (hash, b) :- GetKey(b);
      var (a, b) :- GetActive(getB, b);
      Got(V4Active(hash, a), b)
    else Fail
  }

  function GetInfo<A, B>(getA: Reader<A>, getB: Reader<B>, b: Bytes): Parsed<SessionInfo<A, B>>
  {
    var (version, b) :- GetByte(b);
    match version
    case 0 => Got(Invalid, b)
    case 1 =>
      var (a, b) :- GetActive(getA, b);
      Got(V1(a), b)
    case 2 => GetV2(getA, b)
    case 3 => GetV3(getB, b)
    case 4 => GetV4(getB, b)
    case _ => Fail
  }

  function GetSession<A, B>(getA: Reader<A>, getB: Reader<B>, b: Bytes): Parsed<(Bytes, Session<A, B>)>
  {
    var (discriminator, b) :- GetBytes(8, b);
    var (sponsor, b) :- GetKey(b);
    var (major, b) :- GetByte(b);
    var (info, b) :- GetInfo(getA, getB, b);
    Got((discriminator, Session(sponsor, major, info)), b)
  }

  /** `Session::try_deserialize`: bytes after the session are ignored. */
  function TryDeserialize<A, B>(getA: Reader<A>, getB: Reader<B>, data: Bytes): Result<Session<A, B>, SessionError>
  {
    match GetSession(getA, getB, data)
    case Fail => Err(InvalidAccountData)
    case Got((discriminator, session), _) =>
      if discriminator != DISCRIMINATOR then Err(InvalidAccountDiscriminator) else Ok(session)
  }

  function Decode(data: Bytes): Result<FullSession, SessionError>
  {
    TryDeserialize(GetPlainGrants, GetMintGrants, data)
  }

  function DecodeTruncated(data: Bytes): Result<TruncatedSession, SessionError>
  {
    TryDeserialize(GetNothing, GetNothing, data)
  }

  // ---------- writers ----------

  function PutProgram(p: AuthorizedProgram, rest: Bytes): Bytes { PutKey(p.programId, PutKey(p.signerPda, rest)) }

  function PutPrograms(p: AuthorizedPrograms, rest: Bytes): Bytes
  {
    if p.SpecificPrograms? then [0] + PutVec(PutProgram, p.programs, rest) else [1] + rest
  }

  function PutTokens(t: AuthorizedTokens, rest: Bytes): Bytes
  {
    [if t.SpecificTokens? then 0 else 1] + rest
  }

  function PutMints(t: AuthorizedTokensWithMints, rest: Bytes): Bytes
  {
    if t.SpecificMints? then [0] + PutVec(PutKey, t.mints, rest) else [1] + rest
  }

  function PutExtraItem(e: ExtraItem, rest: Bytes): Bytes { PutString(e.key, PutString(e.value, rest)) }

  function PutGrants<T>(putTokens: Writer<T>, g: Grants<T>, rest: Bytes): Bytes
  {
    PutPrograms(g.programs, putTokens(g.tokens, PutVec(PutExtraItem, g.extra, rest)))
  }

  function PutPlain(a: Active<PlainGrants>, rest: Bytes): Bytes
  {
    PutKey(a.user, PutI64(a.expiration, PutGrants(PutTokens, a.grants, rest)))
  }

  function PutWithMints(a: Active<MintGrants>, rest: Bytes): Bytes
  {
    PutKey(a.user, PutI64(a.expiration, PutGrants(PutMints, a.grants, rest)))
  }

  function PutRevoked(r: Revoked, rest: Bytes): Bytes
  {
    PutKey(r.user, PutI64(r.expiration, PutMints(r.tokens, rest)))
  }

  function PutInfo(info: FullInfo, rest: Bytes): Bytes
  {
    match info
    case Invalid => [0] + rest
    case V1(a) => [1] + PutPlain(a, rest)
    case V2Revoked(e) => [2] + ([0] + PutI64(e, rest))
    case V2Active(a) => [2] + ([1] + PutPlain(a, rest))
    case V3Revoked(r) => [3] + ([0] + PutRevoked(r, rest))
    case V3Active(a) => [3] + ([1] + PutWithMints(a, rest))
    case V4Revoked(r) => [4] + ([0] + PutRevoked(r, rest))
    case V4Active(hash, a) => [4] + ([1] + PutKey(hash, PutWithMints(a, rest)))
  }

  function PutSession(s: FullSession, rest: Bytes): Bytes
  {
    PutKey(s.sponsor, [s.major] + PutInfo(s.info, rest))
  }

  /** Account data: the encoded session, then whatever the buffer still holds. */
  function Encode(s: FullSession, rest: Bytes): Bytes { DISCRIMINATOR + PutSession(s, rest) }

  // ---------- what can be encoded ----------

  predicate EncodablePrograms(p: AuthorizedPrograms) { p.SpecificPrograms? ==> |p.programs| <= U32_MAX }

  predicate EncodableMints(t: AuthorizedTokensWithMints) { t.SpecificMints? ==> |t.mints| <= U32_MAX }

  predicate EncodableItem(e: ExtraItem)
  {
    |e.key| <= U32_MAX && |e.value| <= U32_MAX && Utf8.Valid(e.key) && Utf8.Valid(e.value)
  }

  predicate EncodableGrants<T>(g: Grants<T>)
  {
    EncodablePrograms(g.programs) && |g.extra| <= U32_MAX && forall e :: e in g.extra ==> EncodableItem(e)
  }

  predicate Encodable(s: FullSession)
  {
    match s.info
    case Invalid => true
    case V1(a) => EncodableGrants(a.grants)
    case V2Revoked(_) => true
    case V2Active(a) => EncodableGrants(a.grants)
    case V3Revoked(r) => EncodableMints(r.tokens)
    case V3Active(a) => EncodableGrants(a.grants) && EncodableMints(a.grants.tokens)
    case V4Revoked(r) => EncodableMints(r.tokens)
    case V4Active(_, a) => EncodableGrants(a.grants) && EncodableMints(a.grants.tokens)
  }

  // ---------- reading undoes writing ----------

  lemma ProgramInverse()
    ensures Inverse(PutProgram, GetProgram, (_: AuthorizedProgram) => true)
  {
    forall p: AuthorizedProgram, rest: Bytes
      ensures GetProgram(PutProgram(p, rest)) == Got(p, rest)
    {
      KeyInverse(p.programId, PutKey(p.signerPda, rest));
      KeyInverse(p.signerPda, rest);
    }
  }

  lemma ProgramsInverse(p: AuthorizedPrograms, rest: Bytes)
    requires EncodablePrograms(p)
    ensures GetPrograms(PutPrograms(p, rest)) == Got(p, rest)
  {
    if p.SpecificPrograms? {
      ProgramInverse();
      VecInverse(PutProgram, GetProgram, _ => true, p.programs, rest);
      assert PutPrograms(p, rest)[1..] == PutVec(PutProgram, p.programs, rest);
    } else {
      assert PutPrograms(p, rest)[1..] == rest;
    }
  }

  lemma MintsInverse(t: AuthorizedTokensWithMints, rest: Bytes)
    requires EncodableMints(t)
    ensures GetMints(PutMints(t, rest)) == Got(t, rest)
  {
    if t.SpecificMints? {
      forall k: Pubkey, tail: Bytes
        ensures GetKey(PutKey(k, tail)) == Got(k, tail)
      {
        KeyInverse(k, tail);
      }
      VecInverse(PutKey, GetKey, _ => true, t.mints, rest);
      assert PutMints(t, rest)[1..] == PutVec(PutKey, t.mints, rest);
    } else {
      assert PutMints(t, rest)[1..] == rest;
    }
  }

  lemma ExtraInverse(extra: seq<ExtraItem>, rest: Bytes)
    requires |extra| <= U32_MAX && forall e :: e in extra ==> EncodableItem(e)
    ensures GetVec(GetExtraItem, PutVec(PutExtraItem, extra, rest)) == Got(extra, rest)
  {
    forall e: ExtraItem, tail: Bytes | EncodableItem(e)
      ensures GetExtraItem(PutExtraItem(e, tail)) == Got(e, tail)
    {
      StringInverse(e.key, PutString(e.value, tail));
      StringInverse(e.value, tail);
    }
    VecInverse(PutExtraItem, GetExtraItem, EncodableItem, extra, rest);
  }

  lemma GrantsInverse<T>(putTokens: Writer<T>, getTokens: Reader<T>, g: Grants<T>, rest: Bytes)
    requires EncodableGrants(g)
    requires forall tail :: getTokens(putTokens(g.tokens, tail)) == Got(g.tokens, tail)
    ensures GetGrants(getTokens, PutGrants(putTokens, g, rest)) == Got(g, rest)
  {
    var extra := PutVec(PutExtraItem, g.extra, rest);
    ExtraInverse(g.extra, rest);
    ProgramsInverse(g.programs, putTokens(g.tokens, extra));
  }

  lemma ActiveInverse<G>(getGrants: Reader<G>, a: Active<G>, grants: Bytes, rest: Bytes)
    requires getGrants(grants) == Got(a.grants, rest)
    ensures GetActive(getGrants, PutKey(a.user, PutI64(a.expiration, grants))) == Got(a, rest)
  {
    KeyInverse(a.user, PutI64(a.expiration, grants));
    I64Inverse(a.expiration, grants);
  }

  lemma PlainInverse(a: Active<PlainGrants>, rest: Bytes)
    requires EncodableGrants(a.grants)
    ensures GetActive(GetPlainGrants, PutPlain(a, rest)) == Got(a, rest)
  {
    forall tail: Bytes
      ensures GetTokens(PutTokens(a.grants.tokens, tail)) == Got(a.grants.tokens, tail)
    {
      assert PutTokens(a.grants.tokens, tail)[1..] == tail;
    }
    GrantsInverse(PutTokens, GetTokens, a.grants, rest);
    ActiveInverse(GetPlainGrants, a, PutGrants(PutTokens, a.grants, rest), rest);
  }

  lemma WithMintsInverse(a: Active<MintGrants>, rest: Bytes)
    requires EncodableGrants(a.grants) && EncodableMints(a.grants.tokens)
    ensures GetActive(GetMintGrants, PutWithMints(a, rest)) == Got(a, rest)
  {
    forall tail: Bytes
      ensures GetMints(PutMints(a.grants.tokens, tail)) == Got(a.grants.tokens, tail)
    {
      MintsInverse(a.grants.tokens, tail);
    }
    GrantsInverse(PutMints, GetMints, a.grants, rest);
    ActiveInverse(GetMintGrants, a, PutGrants(PutMints, a.grants, rest), rest);
  }

  lemma RevokedInverse(r: Revoked, rest: Bytes)
    requires EncodableMints(r.tokens)
    ensures GetRevoked(PutRevoked(r, rest)) == Got(r, rest)
  {
    var mints := PutMints(r.tokens, rest);
    KeyInverse(r.user, PutI64(r.expiration, mints));
    I64Inverse(r.expiration, mints);
    MintsInverse(r.tokens, rest);
  }

  lemma V1Tag<A, B>(getA: Reader<A>, getB: Reader<B>, a: Active<A>, body: Bytes, rest: Bytes)
    requires GetActive(getA, body) == Got(a, rest)
    ensures GetInfo(getA, getB, [1] + body) == Got(V1(a), rest)
  {
    assert ([1] + body)[1..] == body;
  }

  lemma Untag(version: byte, state: byte, body: Bytes)
    ensures GetByte([version] + ([state] + body)) == Got(version, [state] + body)
    ensures GetByte([state] + body) == Got(state, body)
  {
    assert ([version] + ([state] + body))[1..] == [state] + body;
    assert ([state] + body)[1..] == body;
  }

  lemma ActiveTags<A, B>(getA: Reader<A>, getB: Reader<B>, a: Active<A>, b: Active<B>, body: Bytes, rest: Bytes)
    ensures GetActive(getA, body) == Got(a, rest) ==> GetInfo(getA, getB, [2] + ([1] + body)) == Got(V2Active(a), rest)
    ensures GetActive(getB, body) == Got(b, rest) ==> GetInfo(getA, getB, [3] + ([1] + body)) == Got(V3Active(b), rest)
  {
    Untag(2, 1, body);
    Untag(3, 1, body);
  }

  lemma HashedTag<A, B>(getA: Reader<A>, getB: Reader<B>, hash: Pubkey, b: Active<B>, body: Bytes, rest: Bytes)
    requires GetActive(getB, body) == Got(b, rest)
    ensures GetInfo(getA, getB, [4] + ([1] + PutKey(hash, body))) == Got(V4Active(hash, b), rest)
  {
    Untag(4, 1, PutKey(hash, body));
    KeyInverse(hash, body);
  }

  lemma RevokedTags<A, B>(getA: Reader<A>, getB: Reader<B>, e: I64, r: Revoked, body: Bytes, rest: Bytes)
    ensures GetI64(body) == Got(e, rest) ==> GetInfo(getA, getB, [2] + ([0] + body)) == Got(V2Revoked(e), rest)
    ensures GetRevoked(body) == Got(r, rest) ==> GetInfo(getA, getB, [3] + ([0] + body)) == Got(V3Revoked(r), rest)
    ensures GetRevoked(body) == Got(r, rest) ==> GetInfo(getA, getB, [4] + ([0] + body)) == Got(V4Revoked(r), rest)
  {
    Untag(2, 0, body);
    Untag(3, 0, body);
    Untag(4, 0, body);
  }

  lemma InfoInverse(s: FullSession, rest: Bytes)
    requires Encodable(s)
    ensures GetInfo(GetPlainGrants, GetMintGrants, PutInfo(s.info, rest)) == Got(s.info, rest)
  {
    var getA, getB := GetPlainGrants, GetMintGrants;
    match s.info
    case Invalid =>
      assert PutInfo(s.info, rest)[1..] == rest;
    case V1(a) =>
      PlainInverse(a, rest);
      V1Tag(getA, getB, a, PutPlain(a, rest), rest);
    case V2Revoked(e) =>
      I64Inverse(e, rest);
      RevokedTags(getA, getB, e, Revoked(s.sponsor, e, AllMints), PutI64(e, rest), rest);
    case V2Active(a) =>
      PlainInverse(a, rest);
      ActiveTags(getA, getB, a, Active(a.user, 0, Grants(AllPrograms, AllMints, [])), PutPlain(a, rest), rest);
    case V3Revoked(r) =>
      RevokedInverse(r, rest);
      RevokedTags(getA, getB, 0, r, PutRevoked(r, rest), rest);
    case V3Active(a) =>
      WithMintsInverse(a, rest);
      ActiveTags(getA, getB, Active(a.user, 0, Grants(AllPrograms, AllTokens, [])), a, PutWithMints(a, rest), rest);
    case V4Revoked(r) =>
      RevokedInverse(r, rest);
      RevokedTags(getA, getB, 0, r, PutRevoked(r, rest), rest);
    case V4Active(hash, a) =>
      WithMintsInverse(a, rest);
      HashedTag(getA, getB, hash, a, PutWithMints(a, rest), rest);
  }

  /** Whatever the buffer holds after it, an encodable session is read back exactly. */
  lemma RoundTrip(s: FullSession, rest: Bytes)
    requires Encodable(s)
    ensures Decode(Encode(s, rest)) == Ok(s)
  {
    var info := PutInfo(s.info, rest);
    InfoInverse(s, rest);
    BytesInverse(DISCRIMINATOR, PutSession(s, rest));
    KeyInverse(s.sponsor, [s.major] + info);
    assert ([s.major] + info)[1..] == info;
  }

  // ---------- the truncated layout ----------

  function TruncateActive<G>(a: Active<G>): Active<()> { Active(a.user, a.expiration, ()) }

  function TruncateInfo<A, B>(info: SessionInfo<A, B>): SessionInfo<(), ()>
  {
    match info
    case Invalid => Invalid
    case V1(a) => V1(TruncateActive(a))
    case V2Revoked(e) => V2Revoked(e)
    case V2Active(a) => V2Active(TruncateActive(a))
    case V3Revoked(r) => V3Revoked(r)
    case V3Active(a) => V3Active(TruncateActive(a))
    case V4Revoked(r) => V4Revoked(r)
    case V4Active(hash, a) => V4Active(hash, TruncateActive(a))
  }

  function Truncate(s: FullSession): TruncatedSession
  {
    Session(s.sponsor, s.major, TruncateInfo(s.info))
  }

  lemma TruncatedActive<G>(getGrants: Reader<G>, b: Bytes)
    requires GetActive(getGrants, b).Got?
    ensures GetActive(GetNothing, b).Got?
    ensures GetActive(GetNothing, b).value == TruncateActive(GetActive(getGrants, b).value)
  {
  }

  lemma TruncatedTail<A, B>(getA: Reader<A>, getB: Reader<B>, version: byte, b: Bytes)
    requires version == 2 ==> GetV2<A, B>(getA, b).Got?
    requires version == 3 ==> GetV3<A, B>(getB, b).Got?
    requires version == 4 ==> GetV4<A, B>(getB, b).Got?
    ensures version == 2 ==> var p := GetV2<(), ()>(GetNothing, b);
                             p.Got? && p.value == TruncateInfo(GetV2<A, B>(getA, b).value)
    ensures version == 3 ==> var p := GetV3<(), ()>(GetNothing, b);
                             p.Got? && p.value == TruncateInfo(GetV3<A, B>(getB, b).value)
    ensures version == 4 ==> var p := GetV4<(), ()>(GetNothing, b);
                             p.Got? && p.value == TruncateInfo(GetV4<A, B>(getB, b).value)
  {
    if b != [] && b[0] == 1 {
      if version == 2 {
        TruncatedActive(getA, b[1..]);
      } else if version == 3 {
        TruncatedActive(getB, b[1..]);
      } else if version == 4 {
        TruncatedActive(getB, GetKey(b[1..]).rest);
      }
    }
  }

  lemma TruncatedInfo<A, B>(getA: Reader<A>, getB: Reader<B>, b: Bytes)
    requires GetInfo(getA, getB, b).Got?
    ensures var p := GetInfo(GetNothing, GetNothing, b);
            p.Got? && p.value == TruncateInfo(GetInfo(getA, getB, b).value)
  {
    if b[0] == 1 {
      TruncatedActive(getA, b[1..]);
    } else {
      TruncatedTail(getA, getB, b[0], b[1..]);
    }
  }

  /** On every byte string that holds a session, the truncated reader reads that session's head. */
  lemma TruncatedReaderAgrees(data: Bytes)
    requires Decode(data).Ok?
    ensures DecodeTruncated(data) == Ok(Truncate(Decode(data).value))
  {
    var major := GetKey(GetBytes(8, data).rest).rest;
    TruncatedInfo(GetPlainGrants, GetMintGrants, major[1..]);
  }

  /**
   * The system program's check on the raw account bytes and the token program's check on
   * them return the same user or the same error, at every clock value.
   */
  lemma SystemProgramCheckAgrees(data: Bytes, now: I64)
    requires Decode(data).Ok?
    ensures DecodeTruncated(data).Ok?
    ensures UserChecked(DecodeTruncated(data).value, now) == UserChecked(Decode(data).value, now)
  {
    TruncatedReaderAgrees(data);
  }
}
