/**
 * Rent and lamports over whole runs: every lamport stays somewhere, revoking shrinks the
 * account, and a session account is never left below the rent minimum for its size,
 * apart from one way of starting it that is characterised exactly.
 */
module SessionFunds {
  import opened Common
  import opened Sessions
  import opened IntentTypes
  import opened SessionManager
  import opened SessionRuns
  import Borsh
  import L = SessionLayout

  // ---------- lamports are conserved ----------

  ghost function Pick(accounts: Accounts): (k: Pubkey)
    requires accounts.Keys != {}
    ensures k in accounts
  {
    var k :| k in accounts.Keys;
    k
  }

  ghost function Total(accounts: Accounts): nat
    decreases |accounts|
  {
    if accounts.Keys == {} then 0
    else
      var k := Pick(accounts);
      accounts[k].lamports + Total(accounts - {k})
  }

  lemma {:induction false} TotalWithout(accounts: Accounts, k: Pubkey)
    requires k in accounts
    ensures Total(accounts) == accounts[k].lamports + Total(accounts - {k})
    decreases |accounts|
  {
    var j := Pick(accounts);
    if j != k {
      TotalWithout(accounts - {j}, k);
      TotalWithout(accounts - {k}, j);
      assert accounts - {j} - {k} == accounts - {k} - {j};
    }
  }

  lemma TotalOfUpdate(accounts: Accounts, k: Pubkey, a: Account)
    ensures Total(accounts[k := a]) == Total(accounts) - At(accounts, k).lamports + a.lamports
  {
    TotalWithout(accounts[k := a], k);
    if k in accounts {
      TotalWithout(accounts, k);
      assert accounts[k := a] - {k} == accounts - {k};
    } else {
      assert accounts[k := a] - {k} == accounts;
    }
  }

  lemma CreditTotal(accounts: Accounts, k: Pubkey, amount: nat)
    requires Credit(accounts, k, amount).Ok?
    ensures Total(Credit(accounts, k, amount).value) == Total(accounts) + amount
  {
    TotalOfUpdate(accounts, k, Credit(accounts, k, amount).value[k]);
  }

  lemma TransferTotal(accounts: Accounts, from: Pubkey, to: Pubkey, amount: nat)
    requires Transfer(accounts, from, to, amount).Ok?
    ensures Total(Transfer(accounts, from, to, amount).value) == Total(accounts)
  {
    var paid := SystemAccount(At(accounts, from).lamports - amount, 0);
    TotalOfUpdate(accounts, from, paid);
    CreditTotal(accounts[from := paid], to, amount);
  }

  lemma InitializeTotal(rate: pos, accounts: Accounts, payer: Pubkey, k: Pubkey, space: nat)
    requires InitializeAccount(rate, accounts, payer, k, space).Ok?
    ensures Total(InitializeAccount(rate, accounts, payer, k, space).value) == Total(accounts)
  {
    var current := At(accounts, k).lamports;
    var minimum := MinimumBalance(rate, space);
    if current == 0 {
      TransferTotal(accounts, payer, k, minimum);
    } else if SatSub(minimum, current) > 0 {
      TransferTotal(accounts, payer, k, SatSub(minimum, current));
    }
  }

  lemma RefundTotal(rate: pos, accounts: Accounts, k: Pubkey, sponsor: Pubkey, session: FullSession)
    requires Refund(rate, accounts, k, sponsor, session).Ok?
    ensures Total(Refund(rate, accounts, k, sponsor, session).value) == Total(accounts)
  {
    var current := At(accounts, k).lamports;
    var rent := MinimumBalance(rate, SpaceOf(session));
    var kept := SessionAccount(if rent < current then rent else current, SpaceOf(session), session);
    TotalOfUpdate(accounts, k, kept);
    if rent < current {
      CreditTotal(accounts[k := kept], sponsor, current - rent);
    }
  }

  lemma StartTotal(env: Env, w: World, a: StartArgs)
    requires StartSession(env, w, a).Ok?
    ensures Total(StartSession(env, w, a).value.accounts) == Total(w.accounts)
  {
    var stored := At(StartSession(env, w, a).value.accounts, a.session);
    var space := SpaceOf(stored.session);
    InitializeTotal(env.rentRate, w.accounts, a.sponsor, a.session, space);
    var funded := InitializeAccount(env.rentRate, w.accounts, a.sponsor, a.session, space).value;
    TotalOfUpdate(funded, a.session, stored);
  }

  lemma StepTotal(env: Env, w: World, step: Step)
    ensures Total(Execute(env, w, step).accounts) == Total(w.accounts)
  {
    if Attempt(env, w, step).Ok? {
      match step
      case Start(args) => StartTotal(env, w, args);
      case RevokeStep(k, sponsor) =>
        var s := At(w.accounts, k).session;
        RefundTotal(env.rentRate, w.accounts, k, sponsor, s.(info := RevokedInfo(s.info).value));
      case CloseStep(k, sponsor, refs) =>
        TotalOfUpdate(w.accounts, k, SystemAccount(0, 0));
        CreditTotal(w.accounts[k := SystemAccount(0, 0)], sponsor, At(w.accounts, k).lamports);
      case Pay(from, to, amount) => TransferTotal(w.accounts, from, to, amount);
      case OtherProgram(k, a) => TotalOfUpdate(w.accounts, k, a);
      case _ =>
    }
  }

  /** No run creates or destroys a lamport. */
  lemma {:induction false} LamportsConserved(env: Env, w: World, steps: seq<Step>)
    ensures Total(Run(env, w, steps).accounts) == Total(w.accounts)
    decreases |steps|
  {
    if steps != [] {
      StepTotal(env, w, steps[0]);
      LamportsConserved(env, Execute(env, w, steps[0]), steps[1..]);
    }
  }

  // ---------- revoking shrinks the account ----------

  lemma {:induction false} ManyGrows<T(!new)>(put: Borsh.Writer<T>, xs: seq<T>, rest: Bytes)
    requires forall x, tail :: |put(x, tail)| >= |tail|
    ensures |Borsh.PutMany(put, xs, rest)| >= |rest|
  {
    if xs != [] {
      ManyGrows(put, xs[1..], rest);
    }
  }

  lemma ProgramsGrow(p: AuthorizedPrograms, rest: Bytes)
    ensures |L.PutPrograms(p, rest)| > |rest|
  {
    if p.SpecificPrograms? {
      ManyGrows(L.PutProgram, p.programs, rest);
    }
  }

  lemma ExtraGrows(extra: seq<ExtraItem>, rest: Bytes)
    ensures |Borsh.PutVec(L.PutExtraItem, extra, rest)| > |rest|
  {
    ManyGrows(L.PutExtraItem, extra, rest);
  }

  function MintsSize(t: AuthorizedTokensWithMints): nat
  {
    if t.SpecificMints? then 5 + 32 * |t.mints| else 1
  }

  lemma MintsLength(t: AuthorizedTokensWithMints, rest: Bytes)
    ensures |L.PutMints(t, rest)| == MintsSize(t) + |rest|
  {
    if t.SpecificMints? {
      Borsh.ManyLength(Borsh.PutKey, 32, t.mints, rest);
    }
  }

  lemma PlainLength(a: Active<PlainGrants>)
    ensures |L.PutPlain(a, [])| > 40
  {
    var extra := Borsh.PutVec(L.PutExtraItem, a.grants.extra, []);
    ProgramsGrow(a.grants.programs, L.PutTokens(a.grants.tokens, extra));
  }

  lemma WithMintsLength(a: Active<MintGrants>)
    ensures |L.PutWithMints(a, [])| > 40 + MintsSize(a.grants.tokens)
  {
    var extra := Borsh.PutVec(L.PutExtraItem, a.grants.extra, []);
    ExtraGrows(a.grants.extra, []);
    MintsLength(a.grants.tokens, extra);
    ProgramsGrow(a.grants.programs, L.PutMints(a.grants.tokens, extra));
  }

  lemma RevokedLength(r: Revoked)
    ensures |L.PutRevoked(r, [])| == 40 + MintsSize(r.tokens)
  {
    MintsLength(r.tokens, []);
  }

  /** Revoking an active session strictly shrinks its account; revoking again leaves it as it is. */
  lemma RevokingShrinks(s: FullSession)
    requires RevokedInfo(s.info).Ok?
    ensures var revoked := s.(info := RevokedInfo(s.info).value);
            && (IsRevoked(s) ==> revoked == s)
            && (!IsRevoked(s) ==> SpaceOf(revoked) < SpaceOf(s))
  {
    match s.info
    case V2Active(a) => PlainLength(a);
    case V3Active(a) =>
      WithMintsLength(a);
      RevokedLength(Revoked(a.user, a.expiration, a.grants.tokens));
    case V4Active(_, a) =>
      WithMintsLength(a);
      RevokedLength(Revoked(a.user, a.expiration, a.grants.tokens));
    case _ =>
  }

  // ---------- the rent floor ----------

  predicate AtFloor(env: Env, a: Account)
  {
    a.SessionAccount? ==> a.space == SpaceOf(a.session) && a.lamports >= MinimumBalance(env.rentRate, a.space)
  }

  ghost predicate RentFloor(env: Env, w: World)
  {
    forall k: Pubkey :: AtFloor(env, At(w.accounts, k))
  }

  /** The size of the account a start creates, from its arguments. */
  function StartSpace(env: Env, a: StartArgs): nat
  {
    match StartedSession(env, a)
    case Ok(session) => SpaceOf(session)
    case Err(_) => 0
  }

  /** Someone else sponsors the session, or its key already holds the rent minimum. */
  predicate Funded(env: Env, w: World, a: StartArgs)
  {
    a.sponsor != a.session || At(w.accounts, a.session).lamports >= MinimumBalance(env.rentRate, StartSpace(env, a))
  }

  /** Initializing reaches the minimum unless the account pays for itself and holds less. */
  lemma InitializeFunds(rate: pos, accounts: Accounts, payer: Pubkey, k: Pubkey, space: nat)
    requires InitializeAccount(rate, accounts, payer, k, space).Ok?
    ensures At(InitializeAccount(rate, accounts, payer, k, space).value, k).lamports >= MinimumBalance(rate, space) <==>
            payer != k || At(accounts, k).lamports >= MinimumBalance(rate, space)
  {
  }

  /**
   * A start leaves the session at its rent minimum, unless the session key sponsors itself
   * with less than that minimum: the top-up is then a transfer to itself.
   */
  lemma StartFloorExactly(env: Env, w: World, a: StartArgs)
    requires StartSession(env, w, a).Ok?
    ensures AtFloor(env, At(StartSession(env, w, a).value.accounts, a.session)) <==> Funded(env, w, a)
  {
    StartUnfolds(env, w, a);
    InitializeFunds(env.rentRate, w.accounts, a.sponsor, a.session, StartSpace(env, a));
  }

  lemma StartFloor(env: Env, w: World, a: StartArgs)
    requires StartSession(env, w, a).Ok? && RentFloor(env, w)
    ensures RentFloor(env, StartSession(env, w, a).value) <==> Funded(env, w, a)
  {
    var w' := StartSession(env, w, a).value;
    StartFloorExactly(env, w, a);
    StartStores(env, w, a);
    forall k: Pubkey | k != a.session ensures AtFloor(env, At(w'.accounts, k))
    {
      assert SameSession(w.accounts, w'.accounts, k);
      assert AtFloor(env, At(w.accounts, k));
    }
  }

  lemma RevokeFloor(env: Env, w: World, k: Pubkey, sponsor: Pubkey)
    requires RevokeSession(env, w, k, sponsor).Ok?
    requires RentFloor(env, w)
    ensures RentFloor(env, RevokeSession(env, w, k, sponsor).value)
  {
    var w' := RevokeSession(env, w, k, sponsor).value;
    var s := At(w.accounts, k).session;
    var revoked := s.(info := RevokedInfo(s.info).value);
    assert AtFloor(env, At(w.accounts, k));
    RevokingShrinks(s);
    RentGrows(env.rentRate, SpaceOf(revoked), SpaceOf(s));
    forall j: Pubkey ensures AtFloor(env, At(w'.accounts, j))
    {
      assert AtFloor(env, At(w.accounts, j));
    }
  }

  lemma OtherStepsKeepFloor(env: Env, w: World, step: Step)
    requires RentFloor(env, w) && !step.Start?
    ensures RentFloor(env, Execute(env, w, step))
  {
    var w' := Execute(env, w, step);
    if Attempt(env, w, step).Ok? {
      if step.RevokeStep? {
        RevokeFloor(env, w, step.key, step.sponsor);
      } else {
        forall k: Pubkey ensures AtFloor(env, At(w'.accounts, k))
        {
          assert AtFloor(env, At(w.accounts, k));
        }
      }
    }
  }

  predicate FundedStep(env: Env, w: World, step: Step)
  {
    step.Start? && StartSession(env, w, step.args).Ok? ==> Funded(env, w, step.args)
  }

  lemma FloorStep(env: Env, w: World, step: Step)
    requires RentFloor(env, w)
    ensures RentFloor(env, Execute(env, w, step)) <==> FundedStep(env, w, step)
  {
    if step.Start? {
      if Attempt(env, w, step).Ok? {
        StartFloor(env, w, step.args);
      }
    } else {
      OtherStepsKeepFloor(env, w, step);
    }
  }

  /** Every successful start of the run is funded in the state it meets. */
  predicate StartsFunded(env: Env, w: World, steps: seq<Step>)
    decreases |steps|
  {
    steps != [] ==> FundedStep(env, w, steps[0]) && StartsFunded(env, Execute(env, w, steps[0]), steps[1..])
  }

  /** The floor holds in every state of the run. */
  ghost predicate FloorThroughout(env: Env, w: World, steps: seq<Step>)
    decreases |steps|
  {
    RentFloor(env, w) && (steps != [] ==> FloorThroughout(env, Execute(env, w, steps[0]), steps[1..]))
  }

  /** The rent floor holds throughout a run exactly when no start is self-sponsored and underfunded. */
  lemma {:induction false} RentFloorHolds(env: Env, w: World, steps: seq<Step>)
    requires RentFloor(env, w)
    ensures FloorThroughout(env, w, steps) <==> StartsFunded(env, w, steps)
    ensures StartsFunded(env, w, steps) ==> RentFloor(env, Run(env, w, steps))
    decreases |steps|
  {
    if steps != [] {
      FloorStep(env, w, steps[0]);
      if FundedStep(env, w, steps[0]) {
        RentFloorHolds(env, Execute(env, w, steps[0]), steps[1..]);
      }
    }
  }

  /** A key that holds half of the minimum can pay the other half, to itself. */
  lemma SelfTopUp(rate: pos, k: Pubkey, half: U64)
    requires half == 110 * rate
    ensures var accounts := map[k := SystemAccount(half, 0)];
            var r := InitializeAccount(rate, accounts, k, k, 92);
            r.Ok? && At(r.value, k) == SystemAccount(half, 0) && half < MinimumBalance(rate, 92)
  {
    assert MinimumBalance(rate, 92) == 220 * rate == 2 * half;
  }

  /**
   * The exception is real at every rent rate that a balance can express: a key holding the rent
   * of 110 bytes sponsors its own 92-byte session, whose minimum is the rent of 220.
   */
  lemma SelfSponsoredStartIsUnderfunded(env: Env, k: Pubkey, user: Pubkey)
    requires 110 * env.rentRate <= U64_MAX
    ensures exists w, a ::
              StartSession(env, w, a).Ok? && RentFloor(env, w) && !RentFloor(env, StartSession(env, w, a).value)
  {
    var half: U64 := 110 * env.rentRate;
    var intent := Intent(user, MAJOR, 1, "", "", 0, k, AnyTokens, []);
    var a := StartArgs(k, k, "", intent, env.recordAddress(""), [], []);
    var w := World(0, map[k := SystemAccount(half, 0)], map[]);
    var session := Session(k, MAJOR, V1(Active(user, 0, Grants(SpecificPrograms([]), AllTokens, []))));
    assert SpaceOf(session) == 92 && L.Encodable(session);
    SelfTopUp(env.rentRate, k, half);
    var started := StartSession(env, w, a);
    assert started.Ok? && At(started.value.accounts, k) == SessionAccount(half, 92, session);
    assert !AtFloor(env, At(started.value.accounts, k));
  }
}
