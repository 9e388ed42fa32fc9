/**
 * Whole runs of the session manager: starts, revocations and closes interleaved with the
 * clock, with payments, with other programs and with other uses of the token program.
 */
module SessionRuns {
  import opened Common
  import opened Sessions
  import opened SessionManager
  import SessionLayout

  datatype Step =
    | Tick(time: I64)
    | Start(args: StartArgs)
    | RevokeStep(key: Pubkey, sponsor: Pubkey)
    | CloseStep(key: Pubkey, sponsor: Pubkey, refs: seq<Pubkey>)
    | Pay(from: Pubkey, to: Pubkey, amount: nat)
    | OtherProgram(key: Pubkey, replacement: Account)
    | TokenActivity(account: Pubkey, spl: Option<SplAccount>)

  /** Another program may reassign or resize an account that is not a session. */
  predicate OtherProgramMay(w: World, k: Pubkey, a: Account)
  {
    !At(w.accounts, k).SessionAccount? && !a.SessionAccount? && a.lamports == At(w.accounts, k).lamports
  }

  predicate Granted(tokens: Tokens, account: Pubkey, k: Pubkey)
  {
    DelegatedTo(tokens, account, k) && tokens[account].delegation.value.byStart
  }

  /** Outside `start_session`, a delegation it granted can be kept, reduced or removed, never made. */
  predicate TokenActivityMay(w: World, account: Pubkey, spl: Option<SplAccount>)
  {
    spl.Some? && spl.value.TokenAccount? && spl.value.delegation.Some? && spl.value.delegation.value.byStart
    ==> Granted(w.tokens, account, spl.value.delegation.value.delegate)
  }

  function Attempt(env: Env, w: World, step: Step): Result<World, Error>
  {
    match step
    case Tick(time) => if w.now <= time then Ok(w.(now := time)) else Err(InvalidAccount)
    case Start(args) => StartSession(env, w, args)
    case RevokeStep(k, sponsor) => RevokeSession(env, w, k, sponsor)
    case CloseStep(k, sponsor, refs) => CloseSession(env, w, k, sponsor, refs)
    case Pay(from, to, amount) =>
      var accounts :- Transfer(w.accounts, from, to, amount);
      Ok(w.(accounts := accounts))
    case OtherProgram(k, a) =>
      if OtherProgramMay(w, k, a) then Ok(w.(accounts := w.accounts[k := a])) else Err(InvalidAccount)
    case TokenActivity(account, spl) =>
      if TokenActivityMay(w, account, spl)
      then Ok(w.(tokens := if spl.Some? then w.tokens[account := spl.value] else w.tokens - {account}))
      else Err(TokenProgramError)
  }

  /** A failing transaction changes nothing. */
  function Execute(env: Env, w: World, step: Step): World
  {
    var r := Attempt(env, w, step);
    if r.Ok? then r.value else w
  }

  function Run(env: Env, w: World, steps: seq<Step>): World
    decreases |steps|
  {
    if steps == [] then w else Run(env, Execute(env, w, steps[0]), steps[1..])
  }

  /** A run takes its steps one after another. */
  lemma {:induction false} RunGoesOn(env: Env, w: World, steps: seq<Step>, step: Step)
    ensures Run(env, w, []) == w
    ensures Run(env, w, steps + [step]) == Execute(env, Run(env, w, steps), step)
    decreases |steps|
  {
    if steps == [] {
      assert [step][1..] == [] && [] + [step] == [step];
    } else {
      assert (steps + [step])[1..] == steps[1..] + [step];
      RunGoesOn(env, Execute(env, w, steps[0]), steps[1..], step);
    }
  }

  /** What else happens in a run: time passes, others pay, other programs and the token program act. */
  lemma OthersAct(env: Env, w: World, time: I64, k: Pubkey, a: Account, spl: Option<SplAccount>)
    ensures w.now <= time ==> Execute(env, w, Tick(time)) == World(time, w.accounts, w.tokens)
    ensures w.now > time ==> Execute(env, w, Tick(time)) == w
    ensures OtherProgramMay(w, k, a) ==>
            Execute(env, w, OtherProgram(k, a)) == World(w.now, w.accounts[k := a], w.tokens)
    ensures TokenActivityMay(w, k, spl) ==>
              Execute(env, w, TokenActivity(k, spl)) ==
              World(w.now, w.accounts, if spl.Some? then w.tokens[k := spl.value] else w.tokens - {k})
  {
  }

  /** A payment between two system accounts without data moves exactly its amount. */
  lemma PaymentsMove(env: Env, w: World, from: Pubkey, to: Pubkey, amount: nat)
    requires from in w.accounts && w.accounts[from].SystemAccount? && w.accounts[from].space == 0 && from != to
    requires amount <= w.accounts[from].lamports && At(w.accounts, to).lamports + amount <= U64_MAX
    ensures var after := Execute(env, w, Pay(from, to, amount)).accounts;
            && At(after, from).lamports == w.accounts[from].lamports - amount
            && At(after, to).lamports == At(w.accounts, to).lamports + amount
            && forall j :: j != from && j != to ==> At(after, j) == At(w.accounts, j)
  {
  }

  // ---------- what funding an account can change ----------

  /** `k` holds the same session in both, or no session in either. */
  predicate SameSession(before: Accounts, after: Accounts, k: Pubkey)
  {
    var a, b := At(before, k), At(after, k);
    a.SessionAccount? == b.SessionAccount?
    && (a.SessionAccount? ==> a.session == b.session && a.space == b.space && a.lamports <= b.lamports)
  }

  lemma TransferKeepsSessions(accounts: Accounts, from: Pubkey, to: Pubkey, amount: nat, k: Pubkey)
    requires Transfer(accounts, from, to, amount).Ok?
    ensures SameSession(accounts, Transfer(accounts, from, to, amount).value, k)
  {
  }

  lemma InitializeKeepsSessions(rate: pos, accounts: Accounts, payer: Pubkey, target: Pubkey, space: nat, k: Pubkey)
    requires InitializeAccount(rate, accounts, payer, target, space).Ok?
    ensures SameSession(accounts, InitializeAccount(rate, accounts, payer, target, space).value, k)
    ensures !At(accounts, target).SessionAccount?
  {
  }

  // ---------- what a step can do to one key ----------

  /** The key keeps its session, has it revoked in place, or loses it after it expired. */
  predicate Moved(w: World, w': World, k: Pubkey)
  {
    var a, b := At(w.accounts, k), At(w'.accounts, k);
    && w.now <= w'.now
    && (|| SameSession(w.accounts, w'.accounts, k)
        || (a.SessionAccount? && b.SessionAccount? && RevokedInfo(a.session.info) == Ok(b.session.info)
            && b.session == a.session.(info := b.session.info))
        || (a.SessionAccount? && !b.SessionAccount? && IsLive(a.session, w.now) == Ok(false)))
  }

  lemma RevokeMoves(env: Env, w: World, key: Pubkey, sponsor: Pubkey, k: Pubkey)
    requires RevokeSession(env, w, key, sponsor).Ok?
    ensures Moved(w, RevokeSession(env, w, key, sponsor).value, k)
  {
  }

  lemma CloseMoves(env: Env, w: World, key: Pubkey, sponsor: Pubkey, refs: seq<Pubkey>, k: Pubkey)
    requires CloseSession(env, w, key, sponsor, refs).Ok?
    ensures Moved(w, CloseSession(env, w, key, sponsor, refs).value, k)
  {
  }

  predicate StartsKey(step: Step, k: Pubkey) { step.Start? && step.args.session == k }

  lemma StepMoves(env: Env, w: World, step: Step, k: Pubkey)
    requires !StartsKey(step, k)
    ensures Moved(w, Execute(env, w, step), k)
  {
    if Attempt(env, w, step).Ok? {
      match step
      case Start(args) => StartStores(env, w, args);
      case RevokeStep(key, sponsor) => RevokeMoves(env, w, key, sponsor, k);
      case CloseStep(key, sponsor, refs) => CloseMoves(env, w, key, sponsor, refs, k);
      case Pay(from, to, amount) => TransferKeepsSessions(w.accounts, from, to, amount, k);
      case _ =>
    }
  }

  // ---------- a revoked key stays dead ----------

  /** The session check that every program makes on the key. */
  predicate CheckPasses(w: World, k: Pubkey)
  {
    At(w.accounts, k).SessionAccount? && CheckLiveAndUnrevoked(At(w.accounts, k).session, w.now).Ok?
  }

  /** Revoked with expiration `e`, or past `e` with nothing later than `e` stored. */
  predicate Dead(w: World, k: Pubkey, e: I64)
  {
    var a := At(w.accounts, k);
    if a.SessionAccount? then
      Expiration(a.session).Ok?
      && ((IsRevoked(a.session) && Expiration(a.session).value == e)
          || (Expiration(a.session).value <= e && e < w.now))
    else e < w.now
  }

  /** Every start of `k` among the steps carries an intent that expires no later than `e`. */
  predicate StartsExpireBy(steps: seq<Step>, k: Pubkey, e: I64)
  {
    forall i :: 0 <= i < |steps| && StartsKey(steps[i], k) ==> steps[i].args.intent.expires <= e
  }

  function StartApprovals(env: Env, a: StartArgs): Result<seq<PendingApproval>, Error>
  {
    if a.intent.limits.AnyTokens? then Ok([])
    else ResolveApprovals(env, a.remaining, a.intent.limits.limits, a.intent.signer)
  }

  /** The mints a start records: those of its approvals, or all. */
  function StartMints(env: Env, a: StartArgs): AuthorizedTokensWithMints
  {
    if a.intent.limits.AnyTokens? || StartApprovals(env, a).Err? then AllMints
    else SpecificMints(MintsOf(StartApprovals(env, a).value))
  }

  /** The session a start stores, from its arguments; the code takes the expiration as given. */
  function StartedSession(env: Env, a: StartArgs): Result<FullSession, Error>
  {
    match NewInfo(env, a.intent, a.domainPrograms, StartMints(env, a), a.intent.expires)
    case Ok(info) => Ok(Session(a.sponsor, a.intent.major, info))
    case Err(error) => Err(error)
  }

  /** A start initializes the account for that session, stores the session there and does nothing else to accounts. */
  lemma StartUnfolds(env: Env, w: World, a: StartArgs)
    requires StartSession(env, w, a).Ok?
    ensures StartedSession(env, a).Ok? && SessionLayout.Encodable(StartedSession(env, a).value)
    ensures var session := StartedSession(env, a).value;
            var funded := InitializeAccount(env.rentRate, w.accounts, a.sponsor, a.session, SpaceOf(session));
            var w' := StartSession(env, w, a).value;
            && funded.Ok? && w'.now == w.now
            && w'.accounts == funded.value[a.session :=
                 SessionAccount(At(funded.value, a.session).lamports, SpaceOf(session), session)]
  {
  }

  lemma NewInfoIsActive(env: Env, a: StartArgs)
    requires StartedSession(env, a).Ok?
    ensures var s := StartedSession(env, a).value; Expiration(s) == Ok(a.intent.expires) && !IsRevoked(s)
  {
  }

  lemma StartStores(env: Env, w: World, a: StartArgs)
    requires StartSession(env, w, a).Ok?
    ensures var w' := StartSession(env, w, a).value;
            var account := At(w'.accounts, a.session);
            && w'.now == w.now
            && account.SessionAccount?
            && Expiration(account.session) == Ok(a.intent.expires)
            && !IsRevoked(account.session)
            && account.session.major == a.intent.major && account.session.sponsor == a.sponsor
            && NewInfo(env, a.intent, a.domainPrograms, StartMints(env, a), a.intent.expires) ==
              Ok(account.session.info)
            && SessionLayout.Encodable(account.session)
    ensures !At(w.accounts, a.session).SessionAccount?
    ensures forall k :: k != a.session ==> SameSession(w.accounts, StartSession(env, w, a).value.accounts, k)
  {
    StartUnfolds(env, w, a);
    NewInfoIsActive(env, a);
    var space := SpaceOf(StartedSession(env, a).value);
    InitializeKeepsSessions(env.rentRate, w.accounts, a.sponsor, a.session, space, a.session);
    forall k | k != a.session ensures SameSession(w.accounts, StartSession(env, w, a).value.accounts, k)
    {
      InitializeKeepsSessions(env.rentRate, w.accounts, a.sponsor, a.session, space, k);
    }
  }

  lemma DeadMoved(w: World, w': World, k: Pubkey, e: I64)
    requires Dead(w, k, e) && Moved(w, w', k)
    ensures Dead(w', k, e)
  {
  }

  lemma DeadStep(env: Env, w: World, step: Step, k: Pubkey, e: I64)
    requires Dead(w, k, e)
    requires StartsKey(step, k) ==> step.args.intent.expires <= e
    ensures Dead(Execute(env, w, step), k, e)
  {
    if !StartsKey(step, k) {
      StepMoves(env, w, step, k);
      DeadMoved(w, Execute(env, w, step), k, e);
    } else if StartSession(env, w, step.args).Ok? {
      StartStores(env, w, step.args);
    }
  }

  /**
   * Once a key is revoked, no session check on it passes again in any run, unless a start
   * in that run carries an intent that expires strictly later than the revoked session.
   */
  lemma {:induction false} RevokedStaysDead(env: Env, w: World, steps: seq<Step>, k: Pubkey, e: I64)
    requires Dead(w, k, e)
    requires StartsExpireBy(steps, k, e)
    ensures Dead(Run(env, w, steps), k, e)
    ensures !CheckPasses(Run(env, w, steps), k)
    decreases |steps|
  {
    if steps != [] {
      DeadStep(env, w, steps[0], k, e);
      assert forall i :: 0 <= i < |steps[1..]| ==> steps[1..][i] == steps[i + 1];
      RevokedStaysDead(env, Execute(env, w, steps[0]), steps[1..], k, e);
    }
  }

  lemma RevocationRevokes(env: Env, w: World, k: Pubkey, sponsor: Pubkey)
    requires RevokeSession(env, w, k, sponsor).Ok?
    ensures var a, b := At(w.accounts, k), At(RevokeSession(env, w, k, sponsor).value.accounts, k);
            && a.SessionAccount? && b.SessionAccount?
            && RevokedInfo(a.session.info).Ok? && b.session == a.session.(info := RevokedInfo(a.session.info).value)
  {
  }

  /** A successful revocation kills the key, for its own expiration. */
  lemma RevocationKills(env: Env, w: World, k: Pubkey, sponsor: Pubkey)
    requires RevokeSession(env, w, k, sponsor).Ok?
    ensures At(w.accounts, k).SessionAccount? && Expiration(At(w.accounts, k).session).Ok?
    ensures Dead(RevokeSession(env, w, k, sponsor).value, k, Expiration(At(w.accounts, k).session).value)
  {
    RevocationRevokes(env, w, k, sponsor);
  }

  /** Every session stored under `k` expires when the intent says. */
  predicate ExpiresWith(w: World, k: Pubkey, e: I64)
  {
    At(w.accounts, k).SessionAccount? ==> Expiration(At(w.accounts, k).session) == Ok(e)
  }

  predicate StartsUse(steps: seq<Step>, k: Pubkey, intent: Intent)
  {
    forall i :: 0 <= i < |steps| && StartsKey(steps[i], k) ==> steps[i].args.intent == intent
  }

  lemma ExpiresStep(env: Env, w: World, step: Step, k: Pubkey, e: I64)
    requires ExpiresWith(w, k, e)
    requires StartsKey(step, k) ==> step.args.intent.expires == e
    ensures ExpiresWith(Execute(env, w, step), k, e)
  {
    if !StartsKey(step, k) {
      StepMoves(env, w, step, k);
      ExpiresMoved(w, Execute(env, w, step), k, e);
    } else if StartSession(env, w, step.args).Ok? {
      StartStores(env, w, step.args);
    }
  }

  lemma ExpiresMoved(w: World, w': World, k: Pubkey, e: I64)
    requires ExpiresWith(w, k, e) && Moved(w, w', k)
    ensures ExpiresWith(w', k, e)
  {
  }

  lemma {:induction false} ExpirationFollowsIntent(env: Env, w: World, steps: seq<Step>, k: Pubkey, intent: Intent)
    requires ExpiresWith(w, k, intent.expires)
    requires StartsUse(steps, k, intent)
    ensures ExpiresWith(Run(env, w, steps), k, intent.expires)
    decreases |steps|
  {
    if steps != [] {
      ExpiresStep(env, w, steps[0], k, intent.expires);
      assert forall i :: 0 <= i < |steps[1..]| ==> steps[1..][i] == steps[i + 1];
      ExpirationFollowsIntent(env, Execute(env, w, steps[0]), steps[1..], k, intent);
    }
  }

  /**
   * Replaying a signed intent never brings a revoked session back: if the key has only ever
   * been started with one intent and is revoked after `before`, then after any `after` that
   * starts it only with that same intent, no session check on it passes.
   */
  lemma ReplayNeverRevives(env: Env, w: World, before: seq<Step>, after: seq<Step>, k: Pubkey, intent: Intent)
    requires !At(w.accounts, k).SessionAccount?
    requires StartsUse(before, k, intent) && StartsUse(after, k, intent)
    requires var a := At(Run(env, w, before).accounts, k); a.SessionAccount? && IsRevoked(a.session)
    ensures !CheckPasses(Run(env, Run(env, w, before), after), k)
  {
    ExpirationFollowsIntent(env, w, before, k, intent);
    RevokedStaysDead(env, Run(env, w, before), after, k, intent.expires);
  }

  /** After a start the check passes exactly when the intent has not expired and its major version is current. */
  lemma StartedSessionPasses(env: Env, w: World, a: StartArgs)
    requires StartSession(env, w, a).Ok?
    ensures CheckPasses(StartSession(env, w, a).value, a.session) <==>
            w.now <= a.intent.expires && a.intent.major == MAJOR
  {
    StartStores(env, w, a);
  }

  // ---------- delegations are recorded until the session closes ----------

  /** The session accounts for a delegation of token account `x`: by mint, or by being impossible to close. */
  predicate Records(env: Env, a: Account, x: Pubkey)
  {
    a.SessionAccount? &&
    match a.session.info
    case Invalid => false
    case V1(v) => v.grants.tokens.SpecificTokens?
    case V2Active(v) => v.grants.tokens.SpecificTokens?
    case V2Revoked(_) => true
    case V3Active(v) => RecordsMint(env, v.user, v.grants.tokens, x)
    case V3Revoked(r) => RecordsMint(env, r.user, r.tokens, x)
    case V4Active(_, v) => RecordsMint(env, v.user, v.grants.tokens, x)
    case V4Revoked(r) => RecordsMint(env, r.user, r.tokens, x)
  }

  predicate RecordsMint(env: Env, user: Pubkey, tokens: AuthorizedTokensWithMints, x: Pubkey)
  {
    exists i :: 0 <= i < |MintList(tokens)| && env.ata(user, MintList(tokens)[i]) == x
  }

  ghost predicate DelegationsRecorded(env: Env, w: World)
  {
    forall x: Pubkey, k: Pubkey :: Granted(w.tokens, x, k) ==> Records(env, At(w.accounts, k), x)
  }

  lemma {:induction false} ApproveAllGrants(tokens: Tokens, approvals: seq<PendingApproval>, session: Pubkey,
    x: Pubkey, k: Pubkey)
    requires ApproveAll(tokens, approvals, session).Ok?
    requires Granted(ApproveAll(tokens, approvals, session).value, x, k)
    ensures Granted(tokens, x, k) || (k == session && exists i :: 0 <= i < |approvals| && approvals[i].account == x)
    decreases |approvals|
  {
    if approvals != [] {
      var p := approvals[0];
      var next := Approve(tokens, p.account, p.mint, session, p.amount).value;
      ApproveAllGrants(next, approvals[1..], session, x, k);
      if !Granted(next, x, k) {
        var i :| 0 <= i < |approvals[1..]| && approvals[1..][i].account == x;
        assert approvals[i + 1].account == x;
      } else if !Granted(tokens, x, k) {
        assert approvals[0].account == x;
      }
    }
  }

  /** The session a start writes accounts for every approval the start made. */
  lemma NewInfoRecords(env: Env, intent: Intent, programs: seq<AuthorizedProgram>, approvals: seq<PendingApproval>,
    i: nat, a: Account)
    requires i < |approvals| && approvals[i].account == env.ata(intent.signer, approvals[i].mint)
    requires a.SessionAccount?
    requires NewInfo(env, intent, programs, SpecificMints(MintsOf(approvals)), intent.expires) == Ok(a.session.info)
    ensures Records(env, a, approvals[i].account)
  {
    var tokens := SpecificMints(MintsOf(approvals));
    assert RecordsMint(env, intent.signer, tokens, approvals[i].account) by {
      assert env.ata(intent.signer, MintList(tokens)[i]) == approvals[i].account;
    }
  }

  lemma StartTokens(env: Env, w: World, a: StartArgs)
    requires StartSession(env, w, a).Ok?
    ensures StartApprovals(env, a).Ok?
    ensures ApproveAll(w.tokens, StartApprovals(env, a).value, a.session) == Ok(StartSession(env, w, a).value.tokens)
    ensures forall i :: 0 <= i < |StartApprovals(env, a).value| ==>
      Records(env, At(StartSession(env, w, a).value.accounts, a.session), StartApprovals(env, a).value[i].account)
  {
    var approvals := StartApprovals(env, a).value;
    var account := At(StartSession(env, w, a).value.accounts, a.session);
    forall i | 0 <= i < |approvals| ensures Records(env, account, approvals[i].account)
    {
      assert approvals[i] in approvals;
      NewInfoRecords(env, a.intent, a.domainPrograms, approvals, i, account);
    }
  }

  lemma StartRecords(env: Env, w: World, a: StartArgs)
    requires StartSession(env, w, a).Ok?
    requires DelegationsRecorded(env, w)
    ensures DelegationsRecorded(env, StartSession(env, w, a).value)
  {
    var w' := StartSession(env, w, a).value;
    StartStores(env, w, a);
    StartTokens(env, w, a);
    var approvals := StartApprovals(env, a).value;
    forall x: Pubkey, k: Pubkey | Granted(w'.tokens, x, k)
      ensures Records(env, At(w'.accounts, k), x)
    {
      ApproveAllGrants(w.tokens, approvals, a.session, x, k);
      if Granted(w.tokens, x, k) {
        assert SameSession(w.accounts, w'.accounts, k);
      }
    }
  }

  lemma RevokedRecords(env: Env, a: Account, b: Account, x: Pubkey)
    requires Records(env, a, x) && b.SessionAccount? && RevokedInfo(a.session.info) == Ok(b.session.info)
    ensures Records(env, b, x)
  {
  }

  lemma RevokeRecords(env: Env, w: World, k: Pubkey, sponsor: Pubkey)
    requires RevokeSession(env, w, k, sponsor).Ok?
    requires DelegationsRecorded(env, w)
    ensures DelegationsRecorded(env, RevokeSession(env, w, k, sponsor).value)
  {
    var w' := RevokeSession(env, w, k, sponsor).value;
    RevocationRevokes(env, w, k, sponsor);
    forall x: Pubkey, j: Pubkey | Granted(w'.tokens, x, j)
      ensures Records(env, At(w'.accounts, j), x)
    {
      assert Records(env, At(w.accounts, j), x);
      if j == k {
        RevokedRecords(env, At(w.accounts, k), At(w'.accounts, k), x);
      }
    }
  }

  lemma {:induction false} RevokeAllClears(tokens: Tokens, pending: seq<Pubkey>, x: Pubkey)
    requires RevokeAll(tokens, pending).Ok?
    ensures var after := RevokeAll(tokens, pending).value;
            && after.Keys == tokens.Keys
            && (x in pending ==>
                x in tokens && tokens[x].TokenAccount?
                && after[x] == TokenAccount(tokens[x].mint, tokens[x].frozen, None))
            && (x !in pending && x in tokens ==> after[x] == tokens[x])
    decreases |pending|
  {
    if pending != [] {
      var next := Revoke(tokens, pending[0]).value;
      RevokeAllClears(next, pending[1..], x);
      assert x in pending <==> x == pending[0] || x in pending[1..];
    }
  }

  lemma {:induction false} RevocationsCover(env: Env, tokens: Tokens, refs: seq<Pubkey>, mints: seq<Pubkey>,
    user: Pubkey, k: Pubkey)
    requires |refs| >= |mints|
    requires ResolveRevocations(env, tokens, refs, mints, user, k).Ok?
    ensures var pending := ResolveRevocations(env, tokens, refs, mints, user, k).value;
            && (forall x :: x in pending ==> DelegatedTo(tokens, x, k))
            && (forall i :: 0 <= i < |mints| && DelegatedTo(tokens, env.ata(user, mints[i]), k) ==>
                env.ata(user, mints[i]) in pending)
    decreases |mints|
  {
    if mints != [] {
      RevocationsCover(env, tokens, refs[1..], mints[1..], user, k);
      var pending := ResolveRevocations(env, tokens, refs, mints, user, k).value;
      forall i | 0 <= i < |mints| && DelegatedTo(tokens, env.ata(user, mints[i]), k)
        ensures env.ata(user, mints[i]) in pending
      {
        assert i > 0 ==> mints[i] == mints[1..][i - 1];
      }
    }
  }

  /**
   * Closing a session clears every delegation that a start granted to its key, wherever it
   * is, and touches no token account that is not delegated to the key.
   */
  lemma CloseLeavesNoDelegation(env: Env, w: World, k: Pubkey, sponsor: Pubkey, refs: seq<Pubkey>)
    requires DelegationsRecorded(env, w)
    requires CloseSession(env, w, k, sponsor, refs).Ok?
    ensures var w' := CloseSession(env, w, k, sponsor, refs).value;
            && !At(w'.accounts, k).SessionAccount?
            && w'.tokens.Keys == w.tokens.Keys
            && (forall x: Pubkey :: !Granted(w'.tokens, x, k))
            && (forall x: Pubkey :: x in w.tokens && !DelegatedTo(w.tokens, x, k) ==> w'.tokens[x] == w.tokens[x])
  {
    var w' := CloseSession(env, w, k, sponsor, refs).value;
    var (user, mints) := MintsToRevoke(At(w.accounts, k).session.info).value;
    var pending := ResolveRevocations(env, w.tokens, refs, mints, user, k).value;
    RevocationsCover(env, w.tokens, refs, mints, user, k);
    RevokeAllClears(w.tokens, pending, k);
    forall x: Pubkey
      ensures !Granted(w'.tokens, x, k)
      ensures x in w.tokens && !DelegatedTo(w.tokens, x, k) ==> w'.tokens[x] == w.tokens[x]
    {
      RevokeAllClears(w.tokens, pending, x);
      if Granted(w.tokens, x, k) {
        assert Records(env, At(w.accounts, k), x);
        var i :| 0 <= i < |mints| && env.ata(user, mints[i]) == x;
        assert x in pending;
      }
    }
  }

  lemma CloseRecords(env: Env, w: World, k: Pubkey, sponsor: Pubkey, refs: seq<Pubkey>)
    requires CloseSession(env, w, k, sponsor, refs).Ok?
    requires DelegationsRecorded(env, w)
    ensures DelegationsRecorded(env, CloseSession(env, w, k, sponsor, refs).value)
  {
    var w' := CloseSession(env, w, k, sponsor, refs).value;
    var (user, mints) := MintsToRevoke(At(w.accounts, k).session.info).value;
    var pending := ResolveRevocations(env, w.tokens, refs, mints, user, k).value;
    CloseLeavesNoDelegation(env, w, k, sponsor, refs);
    forall x: Pubkey, j: Pubkey | Granted(w'.tokens, x, j)
      ensures Records(env, At(w'.accounts, j), x)
    {
      RevokeAllClears(w.tokens, pending, x);
      assert Granted(w.tokens, x, j) && j != k;
    }
  }

  lemma RecordedStep(env: Env, w: World, step: Step)
    requires DelegationsRecorded(env, w)
    ensures DelegationsRecorded(env, Execute(env, w, step))
  {
    if Attempt(env, w, step).Ok? {
      match step
      case Start(args) => StartRecords(env, w, args);
      case RevokeStep(k, sponsor) => RevokeRecords(env, w, k, sponsor);
      case CloseStep(k, sponsor, refs) => CloseRecords(env, w, k, sponsor, refs);
      case Pay(from, to, amount) =>
        forall k: Pubkey ensures SameSession(w.accounts, Execute(env, w, step).accounts, k)
        {
          TransferKeepsSessions(w.accounts, from, to, amount, k);
        }
      case _ =>
    }
  }

  /** In every run, each delegation granted by a start is recorded by a session that is still open. */
  lemma {:induction false} DelegationsStayRecorded(env: Env, w: World, steps: seq<Step>)
    requires DelegationsRecorded(env, w)
    ensures DelegationsRecorded(env, Run(env, w, steps))
    decreases |steps|
  {
    if steps != [] {
      RecordedStep(env, w, steps[0]);
      DelegationsStayRecorded(env, Execute(env, w, steps[0]), steps[1..]);
    }
  }
}
