/** Which byte strings hold a session: exactly the encodings, followed by anything. */
module SessionLayoutExact {
  import opened Common
  import opened Sessions
  import opened Borsh
  import opened SessionLayout
  import Utf8

  // ---------- what was read is what would be written ----------

  /** Whatever `get` reads, `put` writes in front of what is left, and it is `ok`. */
  ghost predicate Reads<T>(put: Writer<T>, get: Reader<T>, ok: T -> bool)
  {
    forall b :: get(b).Got? ==> ok(get(b).value) && b == put(get(b).value, get(b).rest)
  }

  lemma ReadKey(b: Bytes)
    ensures GetKey(b).Got? ==> b == PutKey(GetKey(b).value, GetKey(b).rest)
  {
  }

  lemma ReadByte(b: Bytes)
    ensures GetByte(b).Got? ==> b == [GetByte(b).value] + GetByte(b).rest
  {
  }

  lemma ReadLe(width: nat, b: Bytes)
    ensures GetLe(width, b).Got? ==> b == PutLe(GetLe(width, b).value, width, GetLe(width, b).rest)
  {
    if |b| >= width {
      LeOfFromLe(b[..width]);
    }
  }

  lemma ReadI64(b: Bytes)
    ensures GetI64(b).Got? ==> b == PutI64(GetI64(b).value, GetI64(b).rest)
  {
    Widths();
    ReadLe(8, b);
  }

  lemma ReadString(b: Bytes)
    ensures GetString(b).Got? ==>
              var p := GetString(b);
              |p.value| <= U32_MAX && Utf8.Valid(p.value) && b == PutString(p.value, p.rest)
  {
    Widths();
    ReadLe(4, b);
  }

  lemma {:induction false} ReadMany<T>(put: Writer<T>, get: Reader<T>, ok: T -> bool, n: nat, b: Bytes)
    requires Reads(put, get, ok)
    ensures GetMany(get, n, b).Got? ==>
              var p := GetMany(get, n, b);
              |p.value| == n && (forall x :: x in p.value ==> ok(x)) && b == PutMany(put, p.value, p.rest)
  {
    if n > 0 && GetMany(get, n, b).Got? {
      var first := get(b);
      ReadMany(put, get, ok, n - 1, first.rest);
      assert GetMany(get, n, b).value[1..] == GetMany(get, n - 1, first.rest).value;
    }
  }

  lemma ReadVec<T>(put: Writer<T>, get: Reader<T>, ok: T -> bool, b: Bytes)
    requires Reads(put, get, ok)
    ensures GetVec(get, b).Got? ==>
              var p := GetVec(get, b);
              |p.value| <= U32_MAX && (forall x :: x in p.value ==> ok(x)) && b == PutVec(put, p.value, p.rest)
  {
    if GetVec(get, b).Got? {
      Widths();
      ReadLe(4, b);
      ReadMany(put, get, ok, GetLe(4, b).value, GetLe(4, b).rest);
    }
  }

  lemma ReadPrograms(b: Bytes)
    ensures GetPrograms(b).Got? ==>
              EncodablePrograms(GetPrograms(b).value) && b == PutPrograms(GetPrograms(b).value, GetPrograms(b).rest)
  {
    forall c: Bytes | GetProgram(c).Got? ensures c == PutProgram(GetProgram(c).value, GetProgram(c).rest)
    {
      ReadKey(c);
      ReadKey(GetKey(c).rest);
    }
    if GetPrograms(b).Got? {
      ReadByte(b);
      ReadVec(PutProgram, GetProgram, _ => true, b[1..]);
    }
  }

  lemma ReadTokens(b: Bytes)
    ensures GetTokens(b).Got? ==> b == PutTokens(GetTokens(b).value, GetTokens(b).rest)
  {
    ReadByte(b);
  }

  lemma ReadMints(b: Bytes)
    ensures GetMints(b).Got? ==>
              EncodableMints(GetMints(b).value) && b == PutMints(GetMints(b).value, GetMints(b).rest)
  {
    if GetMints(b).Got? {
      ReadByte(b);
      ReadVec(PutKey, GetKey, _ => true, b[1..]);
    }
  }

  lemma ReadExtra(b: Bytes)
    ensures GetVec(GetExtraItem, b).Got? ==>
              var p := GetVec(GetExtraItem, b);
              |p.value| <= U32_MAX && (forall e :: e in p.value ==> EncodableItem(e))
                && b == PutVec(PutExtraItem, p.value, p.rest)
  {
    forall c: Bytes | GetExtraItem(c).Got?
      ensures EncodableItem(GetExtraItem(c).value) && c == PutExtraItem(GetExtraItem(c).value, GetExtraItem(c).rest)
    {
      ReadString(c);
      ReadString(GetString(c).rest);
    }
    ReadVec(PutExtraItem, GetExtraItem, EncodableItem, b);
  }

  lemma ReadPlainGrants(b: Bytes)
    ensures GetPlainGrants(b).Got? ==>
              var p := GetPlainGrants(b);
              EncodableGrants(p.value) && b == PutGrants(PutTokens, p.value, p.rest)
  {
    if GetPlainGrants(b).Got? {
      ReadPrograms(b);
      var c := GetPrograms(b).rest;
      ReadTokens(c);
      ReadExtra(GetTokens(c).rest);
    }
  }

  lemma ReadMintGrants(b: Bytes)
    ensures GetMintGrants(b).Got? ==>
              var p := GetMintGrants(b);
              EncodableGrants(p.value) && EncodableMints(p.value.tokens) && b == PutGrants(PutMints, p.value, p.rest)
  {
    if GetMintGrants(b).Got? {
      ReadPrograms(b);
      var c := GetPrograms(b).rest;
      ReadMints(c);
      ReadExtra(GetMints(c).rest);
    }
  }

  lemma ReadPlain(b: Bytes)
    ensures GetActive(GetPlainGrants, b).Got? ==>
              var p := GetActive(GetPlainGrants, b); EncodableGrants(p.value.grants) && b == PutPlain(p.value, p.rest)
  {
    if GetActive(GetPlainGrants, b).Got? {
      ReadKey(b);
      var c := GetKey(b).rest;
      ReadI64(c);
      ReadPlainGrants(GetI64(c).rest);
    }
  }

  lemma ReadWithMints(b: Bytes)
    ensures GetActive(GetMintGrants, b).Got? ==>
              var p := GetActive(GetMintGrants, b);
              EncodableGrants(p.value.grants) && EncodableMints(p.value.grants.tokens)
                && b == PutWithMints(p.value, p.rest)
  {
    if GetActive(GetMintGrants, b).Got? {
      ReadKey(b);
      var c := GetKey(b).rest;
      ReadI64(c);
      ReadMintGrants(GetI64(c).rest);
    }
  }

  lemma ReadRevoked(b: Bytes)
    ensures GetRevoked(b).Got? ==>
              var p := GetRevoked(b); EncodableMints(p.value.tokens) && b == PutRevoked(p.value, p.rest)
  {
    if GetRevoked(b).Got? {
      ReadKey(b);
      var c := GetKey(b).rest;
      ReadI64(c);
      ReadMints(GetI64(c).rest);
    }
  }

  /** `b` is the encoding of that information, with `rest` behind it. */
  predicate Holds(info: FullInfo, rest: Bytes, b: Bytes)
  {
    Encodable(Session(seq(32, _ => 0), 0, info)) && b == PutInfo(info, rest)
  }

  lemma TwoTags(version: byte, state: byte, b: Bytes)
    requires b != [] && b[0] == state
    ensures [version] + b == [version] + ([state] + b[1..])
  {
    assert b == [state] + b[1..];
  }

  lemma HoldsRevoked(r: Revoked, rest: Bytes, c: Bytes)
    requires EncodableMints(r.tokens) && c == PutRevoked(r, rest)
    ensures Holds(V3Revoked(r), rest, [3] + ([0] + c)) && Holds(V4Revoked(r), rest, [4] + ([0] + c))
  {
  }

  lemma HoldsActive(hash: Pubkey, a: Active<MintGrants>, rest: Bytes, c: Bytes)
    requires EncodableGrants(a.grants) && EncodableMints(a.grants.tokens) && c == PutWithMints(a, rest)
    ensures Holds(V3Active(a), rest, [3] + ([1] + c)) && Holds(V4Active(hash, a), rest, [4] + ([1] + PutKey(hash, c)))
  {
  }

  lemma HoldsV2(e: I64, a: Active<PlainGrants>, rest: Bytes)
    ensures Holds(V2Revoked(e), rest, [2] + ([0] + PutI64(e, rest)))
    ensures EncodableGrants(a.grants) ==> Holds(V2Active(a), rest, [2] + ([1] + PutPlain(a, rest)))
  {
  }

  lemma ReadV2(b: Bytes)
    requires GetV2<PlainGrants, MintGrants>(GetPlainGrants, b).Got?
    ensures var p := GetV2<PlainGrants, MintGrants>(GetPlainGrants, b); Holds(p.value, p.rest, [2] + b)
  {
    TwoTags(2, b[0], b);
    var p := GetV2<PlainGrants, MintGrants>(GetPlainGrants, b);
    if b[0] == 0 {
      ReadI64(b[1..]);
      HoldsV2(p.value.expiration, Active(seq(32, _ => 0), 0, Grants(AllPrograms, AllTokens, [])), p.rest);
    } else {
      ReadPlain(b[1..]);
      HoldsV2(0, p.value.v2, p.rest);
    }
  }

  lemma ReadV3(b: Bytes)
    requires GetV3<PlainGrants, MintGrants>(GetMintGrants, b).Got?
    ensures var p := GetV3<PlainGrants, MintGrants>(GetMintGrants, b); Holds(p.value, p.rest, [3] + b)
  {
    TwoTags(3, b[0], b);
    var p := GetV3<PlainGrants, MintGrants>(GetMintGrants, b);
    if b[0] == 0 {
      ReadRevoked(b[1..]);
      HoldsRevoked(p.value.revokedV3, p.rest, b[1..]);
    } else {
      ReadWithMints(b[1..]);
      HoldsActive(seq(32, _ => 0), p.value.v3, p.rest, b[1..]);
    }
  }

  lemma ReadV4(b: Bytes)
    requires GetV4<PlainGrants, MintGrants>(GetMintGrants, b).Got?
    ensures var p := GetV4<PlainGrants, MintGrants>(GetMintGrants, b); Holds(p.value, p.rest, [4] + b)
  {
    TwoTags(4, b[0], b);
    var p := GetV4<PlainGrants, MintGrants>(GetMintGrants, b);
    if b[0] == 0 {
      ReadRevoked(b[1..]);
      HoldsRevoked(p.value.revokedV4, p.rest, b[1..]);
    } else {
      ReadHashed(b[1..]);
      HoldsActive(p.value.domainHash, p.value.v4, p.rest, PutWithMints(p.value.v4, p.rest));
    }
  }

  lemma ReadHashed(b: Bytes)
    ensures GetKey(b).Got? && GetActive(GetMintGrants, GetKey(b).rest).Got? ==>
              var p := GetActive(GetMintGrants, GetKey(b).rest);
              && EncodableGrants(p.value.grants) && EncodableMints(p.value.grants.tokens)
              && b == PutKey(GetKey(b).value, PutWithMints(p.value, p.rest))
  {
    if GetKey(b).Got? {
      ReadKey(b);
      ReadWithMints(GetKey(b).rest);
    }
  }

  lemma ReadInfo(b: Bytes)
    ensures GetInfo(GetPlainGrants, GetMintGrants, b).Got? ==>
              var p := GetInfo(GetPlainGrants, GetMintGrants, b); Holds(p.value, p.rest, b)
  {
    if GetInfo(GetPlainGrants, GetMintGrants, b).Got? {
      ReadByte(b);
      match b[0]
      case 0 =>
      case 1 => ReadPlain(b[1..]);
      case 2 => ReadV2(b[1..]);
      case 3 => ReadV3(b[1..]);
      case _ => ReadV4(b[1..]);
    }
  }

  /** What decodes is an encodable session's encoding, with whatever follows it in the buffer. */
  lemma DecodedIsEncoding(data: Bytes) returns (rest: Bytes)
    requires Decode(data).Ok?
    ensures Encodable(Decode(data).value) && data == Encode(Decode(data).value, rest)
  {
    var b := data[8..];
    ReadKey(b);
    var c := GetKey(b).rest;
    ReadByte(c);
    ReadInfo(c[1..]);
    rest := GetInfo(GetPlainGrants, GetMintGrants, c[1..]).rest;
    assert data == data[..8] + b;
  }

  /** Exactly the encodings of encodable sessions decode, each to its session. */
  lemma DecodesExactly(data: Bytes, s: FullSession)
    ensures Decode(data) == Ok(s) <==> Encodable(s) && exists rest :: data == Encode(s, rest)
  {
    if Decode(data) == Ok(s) {
      var rest := DecodedIsEncoding(data);
    }
    if Encodable(s) && exists rest :: data == Encode(s, rest) {
      var rest :| data == Encode(s, rest);
      RoundTrip(s, rest);
    }
  }

  /** The discriminator error is given exactly for data that only the discriminator keeps from decoding. */
  lemma WrongDiscriminator(data: Bytes)
    ensures Decode(data) == Err(InvalidAccountDiscriminator) <==>
            |data| >= 8 && data[..8] != DISCRIMINATOR && Decode(DISCRIMINATOR + data[8..]).Ok?
    ensures Decode(data).Err? ==>
              Decode(data).error == InvalidAccountDiscriminator || Decode(data).error == InvalidAccountData
  {
    if |data| >= 8 {
      var fixed := DISCRIMINATOR + data[8..];
      assert fixed[..8] == DISCRIMINATOR && fixed[8..] == data[8..];
    }
  }

  // ---------- where things stand ----------

  /** The version and, from version 2 on, whether the session is active. */
  function Tags(info: FullInfo): Bytes
  {
    match info
    case Invalid => [0]
    case V1(_) => [1]
    case V2Revoked(_) => [2, 0]
    case V2Active(_) => [2, 1]
    case V3Revoked(_) => [3, 0]
    case V3Active(_) => [3, 1]
    case V4Revoked(_) => [4, 0]
    case V4Active(_, _) => [4, 1]
  }

  /** User and expiration behind `b`. */
  predicate HasHolder(b: Bytes, user: Pubkey, expiration: I64)
  {
    |b| >= 40 && b[..32] == user && b[32..40] == Le(OfI64(expiration), 8)
  }

  /** The bytes behind the tags: the domain hash at version 4, then user and expiration. */
  predicate Body(info: FullInfo, b: Bytes)
  {
    match info
    case Invalid => true
    case V1(v) => HasHolder(b, v.user, v.expiration)
    case V2Active(v) => HasHolder(b, v.user, v.expiration)
    case V3Active(v) => HasHolder(b, v.user, v.expiration)
    case V4Active(hash, v) => |b| >= 32 && b[..32] == hash && HasHolder(b[32..], v.user, v.expiration)
    case V3Revoked(r) => HasHolder(b, r.user, r.expiration)
    case V4Revoked(r) => HasHolder(b, r.user, r.expiration)
    case V2Revoked(expiration) => |b| >= 8 && b[..8] == Le(OfI64(expiration), 8)
  }

  lemma HolderBytes(user: Pubkey, expiration: I64, rest: Bytes)
    ensures HasHolder(PutKey(user, PutI64(expiration, rest)), user, expiration)
  {
    var b := PutKey(user, PutI64(expiration, rest));
    assert b[32..] == PutI64(expiration, rest);
    assert b[32..40] == PutI64(expiration, rest)[..8];
  }

  lemma PlainHolder(v: Active<PlainGrants>, rest: Bytes)
    ensures HasHolder(PutPlain(v, rest), v.user, v.expiration)
  {
    HolderBytes(v.user, v.expiration, PutGrants(PutTokens, v.grants, rest));
  }

  lemma MintsHolder(v: Active<MintGrants>, rest: Bytes)
    ensures HasHolder(PutWithMints(v, rest), v.user, v.expiration)
  {
    HolderBytes(v.user, v.expiration, PutGrants(PutMints, v.grants, rest));
  }

  lemma RevokedHolder(r: Revoked, rest: Bytes)
    ensures HasHolder(PutRevoked(r, rest), r.user, r.expiration)
  {
    HolderBytes(r.user, r.expiration, PutMints(r.tokens, rest));
  }

  lemma HashBytes(hash: Pubkey, b: Bytes)
    ensures PutKey(hash, b)[..32] == hash && PutKey(hash, b)[32..] == b
  {
  }

  lemma TagBytes(version: byte, state: byte, b: Bytes)
    ensures [version] + ([state] + b) == [version, state] + b
  {
  }

  lemma BodyBytes(info: FullInfo, rest: Bytes) returns (body: Bytes)
    ensures PutInfo(info, rest) == Tags(info) + body && Body(info, body)
  {
    body := PutInfo(info, rest)[|Tags(info)|..];
    match info
    case Invalid =>
    case V1(v) => PlainHolder(v, rest);
    case V2Revoked(e) => TagBytes(2, 0, PutI64(e, rest));
    case V2Active(v) => TagBytes(2, 1, PutPlain(v, rest)); PlainHolder(v, rest);
    case V3Revoked(r) => TagBytes(3, 0, PutRevoked(r, rest)); RevokedHolder(r, rest);
    case V3Active(v) => TagBytes(3, 1, PutWithMints(v, rest)); MintsHolder(v, rest);
    case V4Revoked(r) => TagBytes(4, 0, PutRevoked(r, rest)); RevokedHolder(r, rest);
    case V4Active(hash, v) =>
      TagBytes(4, 1, PutKey(hash, PutWithMints(v, rest)));
      HashBytes(hash, PutWithMints(v, rest));
      MintsHolder(v, rest);
  }

  lemma Regroup(a: Bytes, b: Bytes, c: Bytes, d: Bytes, e: Bytes)
    ensures a + (b + (c + (d + e))) == a + b + c + d + e
  {
  }

  /** The account data begins with the discriminator, the sponsor, the major version and the tags. */
  lemma HeadBytes(s: FullSession, rest: Bytes) returns (body: Bytes)
    ensures Encode(s, rest) == [243, 81, 72, 115, 214, 188, 72, 144] + s.sponsor + [s.major] + Tags(s.info) + body
    ensures Body(s.info, body)
  {
    body := BodyBytes(s.info, rest);
    Regroup(DISCRIMINATOR, s.sponsor, [s.major], Tags(s.info), body);
  }
}
