/**
 * The session manager program as a transition system over the accounts, token
 * delegations and clock it runs against, and as handlers that update that state.
 *
 * The system program, the token program and the runtime are assumed primitives: an
 * account owned by another program cannot be allocated, an approval sets the delegate,
 * a revocation clears it, and a failing transaction changes nothing.
 */
module SessionManager {
  import opened Common
  import opened Sessions
  import opened IntentTypes
  import SessionLayout

  // ---------- state ----------

  datatype Account =
    | SystemAccount(lamports: nat, space: nat)
    | SessionAccount(lamports: nat, space: nat, session: FullSession)
    | ForeignAccount(lamports: nat, space: nat)

  /** `byStart` records whether `start_session` granted the delegation or someone else did. */
  datatype Delegation = Delegation(delegate: Pubkey, amount: nat, byStart: bool)

  /** An account owned by the token program. */
  datatype SplAccount =
    | TokenAccount(mint: Pubkey, frozen: bool, delegation: Option<Delegation>)
    | OtherSplAccount

  type Accounts = map<Pubkey, Account>
  type Tokens = map<Pubkey, SplAccount>

  datatype World = World(now: I64, accounts: Accounts, tokens: Tokens)

  /** Address derivations, hashes, amount conversion and the rent rate: whatever they are, they are fixed. */
  datatype Env = Env(
    ata: (Pubkey, Pubkey) -> Pubkey,
    metadataPda: Pubkey -> Pubkey,
    recordAddress: string -> Pubkey,
    domainHash: string -> Pubkey,
    uiAmount: (string, nat) -> Option<U64>,
    rentRate: pos)

  // ---------- instruction arguments ----------

  datatype Intent = Intent(
    signer: Pubkey, major: byte, minor: byte, chainId: string, domain: string,
    expires: I64, sessionKey: Pubkey, limits: TokenLimits, extra: seq<ExtraItem>)

  /** A remaining account: its key, and what it holds if it is a mint or a metadata account. */
  datatype AccountRef = AccountRef(key: Pubkey, decimals: Option<nat>, symbol: Option<string>)

  datatype StartArgs = StartArgs(
    sponsor: Pubkey, session: Pubkey, chainId: string, intent: Intent,
    registry: Pubkey, domainPrograms: seq<AuthorizedProgram>, remaining: seq<AccountRef>)

  datatype Error =
    | ChainIdMismatch
    | SessionKeyMismatch
    | SessionTooLong
    | MissingAccount
    | MetadataMismatch
    | SymbolMismatch
    | MintMismatch
    | AssociatedTokenAccountMismatch
    | AmountConversionFailed
    | DomainRecordMismatch
    | InvalidVersion
    | SponsorMismatch
    | SessionIsLive
    | InvalidAccount
    | ArithmeticOverflow
    | AccountInUse
    | InsufficientFunds
    | TokenProgramError

  // ---------- assumed primitives ----------

  const MAX_ACCOUNT_SPACE := 10 * 1024 * 1024

  function At(accounts: Accounts, k: Pubkey): Account
  {
    if k in accounts then accounts[k] else SystemAccount(0, 0)
  }

  function Credit(accounts: Accounts, k: Pubkey, amount: nat): Result<Accounts, Error>
  {
    var a := At(accounts, k);
    if a.lamports + amount > U64_MAX then Err(ArithmeticOverflow)
    else Ok(accounts[k := a.(lamports := a.lamports + amount)])
  }

  /** System-program transfer: the payer is a system account without data. */
  function Transfer(accounts: Accounts, from: Pubkey, to: Pubkey, amount: nat): Result<Accounts, Error>
  {
    var a := At(accounts, from);
    if !a.SystemAccount? || a.space != 0 then Err(InvalidAccount)
    else if a.lamports < amount then Err(InsufficientFunds)
    else Credit(accounts[from := SystemAccount(a.lamports - amount, 0)], to, amount)
  }

  predicate Allocatable(a: Account, space: nat)
  {
    a.SystemAccount? && a.space == 0 && space <= MAX_ACCOUNT_SPACE
  }

  function Approve(tokens: Tokens, account: Pubkey, mint: Pubkey, delegate: Pubkey, amount: nat): Result<Tokens, Error>
  {
    if account in tokens && tokens[account].TokenAccount? && !tokens[account].frozen && tokens[account].mint == mint
    then Ok(tokens[account := tokens[account].(delegation := Some(Delegation(delegate, amount, true)))])
    else Err(TokenProgramError)
  }

  function Revoke(tokens: Tokens, account: Pubkey): Result<Tokens, Error>
  {
    if account in tokens && tokens[account].TokenAccount? && !tokens[account].frozen
    then Ok(tokens[account := tokens[account].(delegation := None)])
    else Err(TokenProgramError)
  }

  // ---------- start_session ----------

  const MAX_SESSION_DURATION := 8 * 24 * 60 * 60

  function CheckExpiration(expires: I64, now: I64): Result<I64, Error>
  {
    if expires > Min(now + MAX_SESSION_DURATION, I64_MAX) then Err(SessionTooLong) else Ok(expires)
  }

  datatype PendingApproval = PendingApproval(account: Pubkey, mint: Pubkey, amount: U64)

  /** Metadata symbols are padded with NUL to ten characters. */
  function Padded(symbol: string): string
  {
    symbol + seq(SatSub(10, |symbol|), _ => '\0')
  }

  /** How many remaining accounts one token limit consumes. */
  function Consumed(limit: TokenLimit): nat { if limit.token.Symbol? then 3 else 2 }

  /** One token limit against the accounts at the front of `refs`. */
  function ResolveApproval(env: Env, refs: seq<AccountRef>, limit: TokenLimit, user: Pubkey)
    : (r: Result<PendingApproval, Error>)
    ensures r.Ok? ==> Consumed(limit) <= |refs| && r.value.account == env.ata(user, r.value.mint)
  {
    if |refs| < Consumed(limit) then Err(MissingAccount)
    else
      var account, mint := refs[0], refs[1];
      if limit.token.Symbol? && refs[2].key != env.metadataPda(mint.key) then Err(MetadataMismatch)
      else if limit.token.Symbol? && refs[2].symbol.None? then Err(InvalidAccount)
      else if limit.token.Symbol? && refs[2].symbol != Some(Padded(limit.token.symbol)) then Err(SymbolMismatch)
      else if limit.token.Mint? && limit.token.mint != mint.key then Err(MintMismatch)
      else if account.key != env.ata(user, mint.key) then Err(AssociatedTokenAccountMismatch)
      else if mint.decimals.None? then Err(InvalidAccount)
      else if env.uiAmount(limit.amount, mint.decimals.value).None? then Err(AmountConversionFailed)
      else Ok(PendingApproval(account.key, mint.key, env.uiAmount(limit.amount, mint.decimals.value).value))
  }

  function ResolveApprovals(env: Env, refs: seq<AccountRef>, limits: seq<TokenLimit>, user: Pubkey)
    : (r: Result<seq<PendingApproval>, Error>)
    ensures r.Ok? ==> forall p :: p in r.value ==> p.account == env.ata(user, p.mint)
    decreases |limits|
  {
    if limits == [] then Ok([])
    else
      var first :- ResolveApproval(env, refs, limits[0], user);
      var rest :- ResolveApprovals(env, refs[Consumed(limits[0])..], limits[1..], user);
      Ok([first] + rest)
  }

  function ApproveAll(tokens: Tokens, approvals: seq<PendingApproval>, session: Pubkey): Result<Tokens, Error>
    decreases |approvals|
  {
    if approvals == [] then Ok(tokens)
    else
      var next :- Approve(tokens, approvals[0].account, approvals[0].mint, session, approvals[0].amount);
      ApproveAll(next, approvals[1..], session)
  }

  function MintsOf(approvals: seq<PendingApproval>): (mints: seq<Pubkey>)
    ensures |mints| == |approvals|
    ensures forall i :: 0 <= i < |mints| ==> mints[i] == approvals[i].mint
  {
    seq(|approvals|, i requires 0 <= i < |approvals| => approvals[i].mint)
  }

  function NewInfo(env: Env, intent: Intent, programs: seq<AuthorizedProgram>, tokens: AuthorizedTokensWithMints,
    expiration: I64)
    : Result<FullInfo, Error>
  {
    var programs := SpecificPrograms(programs);
    var plain := Active(intent.signer, expiration, Grants(programs, WithoutMints(tokens), intent.extra));
    var withMints := Active(intent.signer, expiration, Grants(programs, tokens, intent.extra));
    match intent.minor
    case 1 => Ok(V1(plain))
    case 2 => Ok(V2Active(plain))
    case 3 => Ok(V3Active(withMints))
    case 4 => Ok(V4Active(env.domainHash(intent.domain), withMints))
    case _ => Err(InvalidVersion)
  }

  /** Account data length: the discriminator and the serialized session. */
  function SpaceOf(s: FullSession): nat { 8 + |SessionLayout.PutSession(s, [])| }

  /** `initialize_account`: create the account, or top it up, allocate and assign it. */
  function InitializeAccount(rate: pos, accounts: Accounts, payer: Pubkey, k: Pubkey, space: nat)
    : Result<Accounts, Error>
  {
    var current := At(accounts, k).lamports;
    var minimum := MinimumBalance(rate, space);
    if current == 0 then
      if !Allocatable(At(accounts, k), space) then Err(AccountInUse)
      else Transfer(accounts, payer, k, minimum)
    else
      var required := SatSub(Max(minimum, 1), current);
      var funded :- if required > 0 then Transfer(accounts, payer, k, required) else Ok(accounts);
      if Allocatable(At(funded, k), space) then Ok(funded) else Err(AccountInUse)
  }

  function StartSession(env: Env, w: World, a: StartArgs): Result<World, Error>
  {
    if a.chainId != a.intent.chainId then Err(ChainIdMismatch)
    else if a.session != a.intent.sessionKey then Err(SessionKeyMismatch)
    else
      var expiration :- CheckExpiration(a.intent.expires, w.now);
      var approvals :- if a.intent.limits.AnyTokens? then Ok([])
                       else ResolveApprovals(env, a.remaining, a.intent.limits.limits, a.intent.signer);
      var tokens :- ApproveAll(w.tokens, approvals, a.session);
      var authorized := if a.intent.limits.AnyTokens? then AllMints else SpecificMints(MintsOf(approvals));
      if a.registry != env.recordAddress(a.intent.domain) then Err(DomainRecordMismatch)
      else
        var info :- NewInfo(env, a.intent, a.domainPrograms, authorized, expiration);
        var session := Session(a.sponsor, a.intent.major, info);
        if !SessionLayout.Encodable(session) then Err(InvalidAccount)
        else
          var accounts :- InitializeAccount(env.rentRate, w.accounts, a.sponsor, a.session, SpaceOf(session));
          var stored := SessionAccount(At(accounts, a.session).lamports, SpaceOf(session), session);
          Ok(World(w.now, accounts[a.session := stored], tokens))
  }

  // ---------- revoke_session ----------

  /** The revoked form of a session; versions that cannot be revoked are refused. */
  function RevokedInfo(info: FullInfo): Result<FullInfo, Error>
  {
    match info
    case Invalid => Err(InvalidVersion)
    case V1(_) => Err(InvalidVersion)
    case V2Active(a) => Ok(V2Revoked(a.expiration))
    case V3Active(a) => Ok(V3Revoked(Revoked(a.user, a.expiration, a.grants.tokens)))
    case V4Active(_, a) => Ok(V4Revoked(Revoked(a.user, a.expiration, a.grants.tokens)))
    case _ => Ok(info)
  }

  /** `reallocate_and_refund_rent`: shrink the account and return the excess to the sponsor. */
  function Refund(rate: pos, accounts: Accounts, k: Pubkey, sponsor: Pubkey, session: FullSession)
    : Result<Accounts, Error>
  {
    var current := At(accounts, k).lamports;
    var rent := MinimumBalance(rate, SpaceOf(session));
    if rent < current then
      Credit(accounts[k := SessionAccount(rent, SpaceOf(session), session)], sponsor, current - rent)
    else
      Ok(accounts[k := SessionAccount(current, SpaceOf(session), session)])
  }

  function RevokeSession(env: Env, w: World, k: Pubkey, sponsor: Pubkey): Result<World, Error>
  {
    var a := At(w.accounts, k);
    if !a.SessionAccount? then Err(InvalidAccount)
    else if a.session.sponsor != sponsor then Err(SponsorMismatch)
    else
      var info :- RevokedInfo(a.session.info);
      var accounts :- Refund(env.rentRate, w.accounts, k, sponsor, a.session.(info := info));
      Ok(w.(accounts := accounts))
  }

  // ---------- close_session ----------

  /** The user and the mints whose delegations a close must clear. */
  function MintsToRevoke(info: FullInfo): Result<(Pubkey, seq<Pubkey>), Error>
  {
    match info
    case V3Active(a) => Ok((a.user, MintList(a.grants.tokens)))
    case V3Revoked(r) => Ok((r.user, MintList(r.tokens)))
    case V4Active(_, a) => Ok((a.user, MintList(a.grants.tokens)))
    case V4Revoked(r) => Ok((r.user, MintList(r.tokens)))
    case V2Active(a) => if a.grants.tokens.AllTokens? then Ok((a.user, [])) else Err(InvalidVersion)
    case V1(a) => if a.grants.tokens.AllTokens? then Ok((a.user, [])) else Err(InvalidVersion)
    case _ => Err(InvalidVersion)
  }

  function MintList(t: AuthorizedTokensWithMints): seq<Pubkey> { if t.SpecificMints? then t.mints else [] }

  predicate DelegatedTo(tokens: Tokens, account: Pubkey, delegate: Pubkey)
  {
    && account in tokens && tokens[account].TokenAccount?
    && tokens[account].delegation.Some? && tokens[account].delegation.value.delegate == delegate
  }

  /** The accounts at `refs`, taken in the order of `mints`, that are delegated to the session. */
  function ResolveRevocations(env: Env, tokens: Tokens, refs: seq<Pubkey>, mints: seq<Pubkey>, user: Pubkey,
    session: Pubkey)
    : Result<seq<Pubkey>, Error>
    requires |refs| >= |mints|
    decreases |mints|
  {
    if mints == [] then Ok([])
    else if refs[0] != env.ata(user, mints[0]) then Err(AssociatedTokenAccountMismatch)
    else if refs[0] in tokens && tokens[refs[0]].OtherSplAccount? then Err(InvalidAccount)
    else
      var rest :- ResolveRevocations(env, tokens, refs[1..], mints[1..], user, session);
      Ok((if DelegatedTo(tokens, refs[0], session) then [refs[0]] else []) + rest)
  }

  function RevokeAll(tokens: Tokens, pending: seq<Pubkey>): Result<Tokens, Error>
    decreases |pending|
  {
    if pending == [] then Ok(tokens)
    else
      var next :- Revoke(tokens, pending[0]);
      RevokeAll(next, pending[1..])
  }

  function CloseSession(env: Env, w: World, k: Pubkey, sponsor: Pubkey, refs: seq<Pubkey>): Result<World, Error>
  {
    var a := At(w.accounts, k);
    if !a.SessionAccount? then Err(InvalidAccount)
    else if IsLive(a.session, w.now).Err? then Err(InvalidAccount)
    else if IsLive(a.session, w.now).value then Err(SessionIsLive)
    else if a.session.sponsor != sponsor then Err(SponsorMismatch)
    else if k == sponsor then Err(InvalidAccount)
    else
      var (user, mints) :- MintsToRevoke(a.session.info);
      if |refs| < |mints| then Err(MissingAccount)
      else
        var pending :- ResolveRevocations(env, w.tokens, refs, mints, user, k);
        var tokens :- RevokeAll(w.tokens, pending);
        var accounts :- Credit(w.accounts[k := SystemAccount(0, 0)], sponsor, a.lamports);
        Ok(World(w.now, accounts, tokens))
  }

  // ---------- the handlers ----------

  class Program {
    var now: I64
    var accounts: Accounts
    var tokens: Tokens

    ghost function View(): World
      reads this
    {
      World(now, accounts, tokens)
    }

    constructor (w: World)
      ensures View() == w
    {
      now, accounts, tokens := w.now, w.accounts, w.tokens;
    }

    /** The shared account iterator, advanced two or three entries per token limit. */
    method ConvertToPendingApprovals(env: Env, refs: seq<AccountRef>, limits: seq<TokenLimit>, user: Pubkey)
      returns (r: Result<seq<PendingApproval>, Error>)
      ensures r == ResolveApprovals(env, refs, limits, user)
    {
      var next: nat := 0;
      var approvals := [];
      assert forall rest: seq<PendingApproval> :: approvals + rest == rest;
      assert refs[0..] == refs && limits[0..] == limits;
      for i := 0 to |limits|
        invariant next <= |refs|
        invariant ResolveApprovals(env, refs, limits, user) ==
                  match ResolveApprovals(env, refs[next..], limits[i..], user)
                  case Ok(rest) => Ok(approvals + rest)
                  case Err(e) => Err(e)
      {
        var one := ResolveApproval(env, refs[next..], limits[i], user);
        if one.Err? {
          return Err(one.error);
        }
        assert refs[next..][Consumed(limits[i])..] == refs[next + Consumed(limits[i])..];
        assert limits[i..][1..] == limits[i + 1..];
        next := next + Consumed(limits[i]);
        var before := approvals;
        approvals := approvals + [one.value];
        assert forall rest: seq<PendingApproval> :: before + ([one.value] + rest) == approvals + rest;
      }
      assert approvals + [] == approvals;
      r := Ok(approvals);
    }

    method ApproveTokens(approvals: seq<PendingApproval>, session: Pubkey) returns (r: Result<Tokens, Error>)
      ensures r == ApproveAll(tokens, approvals, session)
    {
      var current := tokens;
      for i := 0 to |approvals|
        invariant ApproveAll(tokens, approvals, session) == ApproveAll(current, approvals[i..], session)
      {
        var p := approvals[i];
        assert approvals[i..][1..] == approvals[i + 1..];
        var next := Approve(current, p.account, p.mint, session, p.amount);
        if next.Err? {
          return Err(next.error);
        }
        current := next.value;
      }
      r := Ok(current);
    }

    method ConvertToPendingRevocations(env: Env, refs: seq<Pubkey>, mints: seq<Pubkey>, user: Pubkey, session: Pubkey)
      returns (r: Result<seq<Pubkey>, Error>)
      ensures r == if |refs| < |mints| then Err(MissingAccount)
                   else ResolveRevocations(env, tokens, refs, mints, user, session)
    {
      if |refs| < |mints| {
        return Err(MissingAccount);
      }
      var pending := [];
      assert forall rest: seq<Pubkey> :: pending + rest == rest;
      assert refs[0..] == refs && mints[0..] == mints;
      for i := 0 to |mints|
        invariant ResolveRevocations(env, tokens, refs, mints, user, session) ==
                  match ResolveRevocations(env, tokens, refs[i..], mints[i..], user, session)
                  case Ok(rest) => Ok(pending + rest)
                  case Err(e) => Err(e)
      {
        assert refs[i..][1..] == refs[i + 1..] && mints[i..][1..] == mints[i + 1..];
        if refs[i] != env.ata(user, mints[i]) {
          return Err(AssociatedTokenAccountMismatch);
        }
        if refs[i] in tokens && tokens[refs[i]].OtherSplAccount? {
          return Err(InvalidAccount);
        }
        var before := pending;
        var one := if DelegatedTo(tokens, refs[i], session) then [refs[i]] else [];
        pending := pending + one;
        assert forall rest: seq<Pubkey> :: before + (one + rest) == pending + rest;
      }
      assert pending + [] == pending;
      r := Ok(pending);
    }

    method RevokeTokens(pending: seq<Pubkey>) returns (r: Result<Tokens, Error>)
      ensures r == RevokeAll(tokens, pending)
    {
      var current := tokens;
      for i := 0 to |pending|
        invariant RevokeAll(tokens, pending) == RevokeAll(current, pending[i..])
      {
        assert pending[i..][1..] == pending[i + 1..];
        var next := Revoke(current, pending[i]);
        if next.Err? {
          return Err(next.error);
        }
        current := next.value;
      }
      r := Ok(current);
    }

    method Start(env: Env, a: StartArgs) returns (r: Result<(), Error>)
      modifies this
      ensures r.Ok? <==> StartSession(env, old(View()), a).Ok?
      ensures r.Err? ==> StartSession(env, old(View()), a) == Err(r.error) && View() == old(View())
      ensures r.Ok? ==> View() == StartSession(env, old(View()), a).value
    {
      if a.chainId != a.intent.chainId {
        return Err(ChainIdMismatch);
      }
      if a.session != a.intent.sessionKey {
        return Err(SessionKeyMismatch);
      }
      var expiration :- CheckExpiration(a.intent.expires, now);
      var approvals := [];
      var authorized := AllMints;
      if a.intent.limits.SpecificLimits? {
        approvals :- ConvertToPendingApprovals(env, a.remaining, a.intent.limits.limits, a.intent.signer);
        authorized := SpecificMints(MintsOf(approvals));
      }
      var approved :- ApproveTokens(approvals, a.session);
      if a.registry != env.recordAddress(a.intent.domain) {
        return Err(DomainRecordMismatch);
      }
      var info :- NewInfo(env, a.intent, a.domainPrograms, authorized, expiration);
      var session := Session(a.sponsor, a.intent.major, info);
      if !SessionLayout.Encodable(session) {
        return Err(InvalidAccount);
      }
      var funded :- InitializeAccount(env.rentRate, accounts, a.sponsor, a.session, SpaceOf(session));
      accounts := funded[a.session := SessionAccount(At(funded, a.session).lamports, SpaceOf(session), session)];
      tokens := approved;
      r := Ok(());
    }

    method RevokeKey(env: Env, k: Pubkey, sponsor: Pubkey) returns (r: Result<(), Error>)
      modifies this`accounts
      ensures r.Ok? <==> RevokeSession(env, old(View()), k, sponsor).Ok?
      ensures r.Err? ==> RevokeSession(env, old(View()), k, sponsor) == Err(r.error) && View() == old(View())
      ensures r.Ok? ==> View() == RevokeSession(env, old(View()), k, sponsor).value
    {
      var a := At(accounts, k);
      if !a.SessionAccount? {
        return Err(InvalidAccount);
      }
      if a.session.sponsor != sponsor {
        return Err(SponsorMismatch);
      }
      var info :- RevokedInfo(a.session.info);
      accounts :- Refund(env.rentRate, accounts, k, sponsor, a.session.(info := info));
      r := Ok(());
    }

    method Close(env: Env, k: Pubkey, sponsor: Pubkey, refs: seq<Pubkey>) returns (r: Result<(), Error>)
      modifies this
      ensures r.Ok? <==> CloseSession(env, old(View()), k, sponsor, refs).Ok?
      ensures r.Err? ==> CloseSession(env, old(View()), k, sponsor, refs) == Err(r.error) && View() == old(View())
      ensures r.Ok? ==> View() == CloseSession(env, old(View()), k, sponsor, refs).value
    {
      var a := At(accounts, k);
      if !a.SessionAccount? {
        return Err(InvalidAccount);
      }
      var live := IsLive(a.session, now);
      if live.Err? {
        return Err(InvalidAccount);
      }
      if live.value {
        return Err(SessionIsLive);
      }
      if a.session.sponsor != sponsor {
        return Err(SponsorMismatch);
      }
      if k == sponsor {
        return Err(InvalidAccount);
      }
      var target :- MintsToRevoke(a.session.info);
      var (user, mints) := target;
      var pending :- ConvertToPendingRevocations(env, refs, mints, user, k);
      var revoked :- RevokeTokens(pending);
      accounts :- Credit(accounts[k := SystemAccount(0, 0)], sponsor, a.lamports);
      tokens := revoked;
      r := Ok(());
    }
  }
}
