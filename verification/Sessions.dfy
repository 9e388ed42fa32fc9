/**
 * The session account as the SDK sees it, and the checks the SDK makes on it.
 *
 * The SDK compiles the same checks against two layouts of an active session: the full
 * one, and one for the system program that stops after the expiration. A session is
 * therefore generic in what follows the expiration of its active variants.
 */
module Sessions {
  import opened Common

  datatype AuthorizedProgram = AuthorizedProgram(programId: Pubkey, signerPda: Pubkey)
  datatype AuthorizedPrograms = SpecificPrograms(programs: seq<AuthorizedProgram>) | AllPrograms
  datatype AuthorizedTokens = SpecificTokens | AllTokens
  datatype AuthorizedTokensWithMints = SpecificMints(mints: seq<Pubkey>) | AllMints

  /** A key and a value, each the bytes of a UTF-8 string. */
  datatype ExtraItem = ExtraItem(key: Bytes, value: Bytes)

  datatype Grants<T> = Grants(programs: AuthorizedPrograms, tokens: T, extra: seq<ExtraItem>)
  datatype Active<G> = Active(user: Pubkey, expiration: I64, grants: G)
  datatype Revoked = Revoked(user: Pubkey, expiration: I64, tokens: AuthorizedTokensWithMints)

  datatype SessionInfo<A, B> =
    | Invalid
    | V1(v1: Active<A>)
    | V2Revoked(expiration: I64)
    | V2Active(v2: Active<A>)
    | V3Revoked(revokedV3: Revoked)
    | V3Active(v3: Active<B>)
    | V4Revoked(revokedV4: Revoked)
    | V4Active(domainHash: Pubkey, v4: Active<B>)

  datatype Session<A, B> = Session(sponsor: Pubkey, major: byte, info: SessionInfo<A, B>)

  type PlainGrants = Grants<AuthorizedTokens>
  type MintGrants = Grants<AuthorizedTokensWithMints>
  type FullInfo = SessionInfo<PlainGrants, MintGrants>
  type FullSession = Session<PlainGrants, MintGrants>
  type TruncatedSession = Session<(), ()>

  datatype SessionError =
    | Expired
    | UserMismatch
    | UnauthorizedProgram
    | MissingRequiredSignature
    | InvalidAccountData
    | InvalidAccountDiscriminator
    | InvalidAccountVersion
    | RevokedSession

  const MAJOR: byte := 0

  function WithoutMints(t: AuthorizedTokensWithMints): AuthorizedTokens
  {
    if t.SpecificMints? then SpecificTokens else AllTokens
  }

  function Expiration<A, B>(s: Session<A, B>): Result<I64, SessionError>
  {
    match s.info
    case Invalid => Err(InvalidAccountVersion)
    case V1(a) => Ok(a.expiration)
    case V2Revoked(e) => Ok(e)
    case V2Active(a) => Ok(a.expiration)
    case V3Revoked(r) => Ok(r.expiration)
    case V3Active(a) => Ok(a.expiration)
    case V4Revoked(r) => Ok(r.expiration)
    case V4Active(_, a) => Ok(a.expiration)
  }

  function User<A, B>(s: Session<A, B>): Result<Pubkey, SessionError>
  {
    match s.info
    case Invalid => Err(InvalidAccountVersion)
    case V1(a) => Ok(a.user)
    case V2Revoked(_) => Err(RevokedSession)
    case V2Active(a) => Ok(a.user)
    case V3Revoked(r) => Ok(r.user)
    case V3Active(a) => Ok(a.user)
    case V4Revoked(r) => Ok(r.user)
    case V4Active(_, a) => Ok(a.user)
  }

  predicate IsRevoked<A, B>(s: Session<A, B>)
  {
    s.info.V2Revoked? || s.info.V3Revoked? || s.info.V4Revoked?
  }

  function CheckVersion<A, B>(s: Session<A, B>): Result<(), SessionError>
  {
    if s.major != MAJOR || s.info.Invalid? then Err(InvalidAccountVersion) else Ok(())
  }

  function CheckUnrevoked<A, B>(s: Session<A, B>): Result<(), SessionError>
  {
    if s.info.Invalid? then Err(InvalidAccountVersion)
    else if IsRevoked(s) then Err(RevokedSession)
    else Ok(())
  }

  /** A revoked session counts as live until its expiration time. */
  function IsLive<A, B>(s: Session<A, B>, now: I64): Result<bool, SessionError>
  {
    var expiration :- Expiration(s);
    Ok(now <= expiration)
  }

  function CheckLive<A, B>(s: Session<A, B>, now: I64): Result<(), SessionError>
  {
    var live :- IsLive(s, now);
    if live then Ok(()) else Err(Expired)
  }

  function CheckLiveAndUnrevoked<A, B>(s: Session<A, B>, now: I64): Result<(), SessionError>
  {
    var _ :- CheckVersion(s);
    var _ :- CheckUnrevoked(s);
    CheckLive(s, now)
  }

  /** The checked user lookup of the token program (full layout) and of the system program (truncated). */
  function UserChecked<A, B>(s: Session<A, B>, now: I64): Result<Pubkey, SessionError>
  {
    var _ :- CheckLiveAndUnrevoked(s, now);
    User(s)
  }

  function Programs(s: FullSession): Result<AuthorizedPrograms, SessionError>
  {
    match s.info
    case Invalid => Err(InvalidAccountVersion)
    case V1(a) => Ok(a.grants.programs)
    case V2Active(a) => Ok(a.grants.programs)
    case V3Active(a) => Ok(a.grants.programs)
    case V4Active(_, a) => Ok(a.grants.programs)
    case _ => Err(RevokedSession)
  }

  function CheckAuthorizedProgram(s: FullSession, programId: Pubkey): Result<(), SessionError>
  {
    var programs :- Programs(s);
    if programs.AllPrograms? || exists i :: 0 <= i < |programs.programs| && programs.programs[i].programId == programId
    then Ok(())
    else Err(UnauthorizedProgram)
  }

  /** The lookup every other on-chain program makes. */
  function UserCheckedForProgram(s: FullSession, now: I64, programId: Pubkey): Result<Pubkey, SessionError>
  {
    var _ :- CheckLiveAndUnrevoked(s, now);
    var _ :- CheckAuthorizedProgram(s, programId);
    User(s)
  }

  function DomainHash(s: FullSession): Result<Pubkey, SessionError>
  {
    match s.info
    case V4Revoked(_) => Err(RevokedSession)
    case V4Active(hash, _) => Ok(hash)
    case _ => Err(InvalidAccountVersion)
  }

  function DomainHashChecked(s: FullSession, now: I64): Result<Pubkey, SessionError>
  {
    var _ :- CheckLiveAndUnrevoked(s, now);
    DomainHash(s)
  }

  function TokensOf(s: FullSession): Result<AuthorizedTokens, SessionError>
  {
    match s.info
    case Invalid => Err(InvalidAccountVersion)
    case V1(a) => Ok(a.grants.tokens)
    case V2Revoked(_) => Err(RevokedSession)
    case V2Active(a) => Ok(a.grants.tokens)
    case V3Revoked(r) => Ok(WithoutMints(r.tokens))
    case V3Active(a) => Ok(WithoutMints(a.grants.tokens))
    case V4Revoked(r) => Ok(WithoutMints(r.tokens))
    case V4Active(_, a) => Ok(WithoutMints(a.grants.tokens))
  }

  /** An account passed to the token program, and whether it signed. */
  datatype Signer = Signer(key: Pubkey, signed: bool)

  predicate IsProgramSigner(programs: seq<AuthorizedProgram>, key: Pubkey)
  {
    exists i :: 0 <= i < |programs| && programs[i].signerPda == key
  }

  /** Only the first account that is some authorized program's signer address is looked at. */
  function CheckProgramSigner(s: FullSession, signers: seq<Signer>): Result<(), SessionError>
  {
    var programs :- Programs(s);
    if programs.AllPrograms? then Ok(())
    else
      var n := SpanLength(signers, (x: Signer) => !IsProgramSigner(programs.programs, x.key));
      if n == |signers| then Err(UnauthorizedProgram)
      else if signers[n].signed then Ok(())
      else Err(MissingRequiredSignature)
  }

  function TokenPermissionsChecked(s: FullSession, now: I64, user: Pubkey, signers: seq<Signer>)
    : Result<AuthorizedTokens, SessionError>
  {
    var _ :- CheckLiveAndUnrevoked(s, now);
    var owner :- User(s);
    if owner != user then Err(UserMismatch)
    else
      var _ :- CheckProgramSigner(s, signers);
      TokensOf(s)
  }
}
