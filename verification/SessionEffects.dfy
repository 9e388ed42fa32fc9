/** What one start, revocation or close achieves, stated from the outside. */
module SessionEffects {
  import opened Common
  import opened Sessions
  import opened IntentTypes
  import opened SessionManager
  import opened SessionRuns
  import F = SessionFunds

  // ---------- start ----------

  predicate Lists(programs: seq<AuthorizedProgram>, p: Pubkey)
  {
    exists i :: 0 <= i < |programs| && programs[i].programId == p
  }

  lemma InfoAuthorizes(env: Env, intent: Intent, programs: seq<AuthorizedProgram>, tokens: AuthorizedTokensWithMints,
    session: FullSession, t: I64, p: Pubkey)
    requires NewInfo(env, intent, programs, tokens, intent.expires) == Ok(session.info) && session.major == intent.major
    ensures UserCheckedForProgram(session, t, p).Ok? ==> UserCheckedForProgram(session, t, p).value == intent.signer
    ensures UserCheckedForProgram(session, t, p).Ok? <==>
            intent.major == MAJOR && t <= intent.expires && Lists(programs, p)
    ensures CheckLiveAndUnrevoked(session, t).Ok? && intent.minor == 4 ==>
            DomainHashChecked(session, t) == Ok(env.domainHash(intent.domain))
  {
  }

  /**
   * A fresh session speaks for the signer, to exactly the domain's programs, until exactly the
   * intent's expiration, and at version 4 it carries the hash of the signed domain.
   */
  lemma StartAuthorizes(env: Env, w: World, a: StartArgs, t: I64, p: Pubkey)
    requires StartSession(env, w, a).Ok?
    ensures var session := At(StartSession(env, w, a).value.accounts, a.session).session;
            && session.sponsor == a.sponsor
            && (UserCheckedForProgram(session, t, p).Ok? ==>
                UserCheckedForProgram(session, t, p).value == a.intent.signer)
            && (UserCheckedForProgram(session, t, p).Ok? <==>
                a.intent.major == MAJOR && t <= a.intent.expires && Lists(a.domainPrograms, p))
            && (CheckLiveAndUnrevoked(session, t).Ok? && a.intent.minor == 4 ==>
                DomainHashChecked(session, t) == Ok(env.domainHash(a.intent.domain)))
  {
    StartStores(env, w, a);
    var session := At(StartSession(env, w, a).value.accounts, a.session).session;
    InfoAuthorizes(env, a.intent, a.domainPrograms, StartMints(env, a), session, t, p);
  }

  /** The key is the signer address of one of the programs. */
  predicate SignsFor(programs: seq<AuthorizedProgram>, key: Pubkey)
  {
    exists p :: p in programs && p.signerPda == key
  }

  lemma SignersAre(programs: seq<AuthorizedProgram>, key: Pubkey)
    ensures IsProgramSigner(programs, key) <==> SignsFor(programs, key)
  {
    if i :| 0 <= i < |programs| && programs[i].signerPda == key {
      assert programs[i] in programs;
    }
  }

  /** The accounts before `n` are no signer addresses, and `n` is one. */
  lemma FirstSigner(programs: seq<AuthorizedProgram>, signers: seq<Signer>) returns (n: nat)
    ensures n == SpanLength(signers, (x: Signer) => !IsProgramSigner(programs, x.key))
    ensures forall i :: 0 <= i < n ==> !SignsFor(programs, signers[i].key)
    ensures n < |signers| ==> SignsFor(programs, signers[n].key)
  {
    n := SpanLength(signers, (x: Signer) => !IsProgramSigner(programs, x.key));
    forall x: Signer ensures IsProgramSigner(programs, x.key) <==> SignsFor(programs, x.key)
    {
      SignersAre(programs, x.key);
    }
  }

  /** Some program of the domain signs, and no other program's signer address comes before it unsigned. */
  predicate DomainSigns(programs: seq<AuthorizedProgram>, signers: seq<Signer>)
  {
    exists n :: 0 <= n < |signers| && signers[n].signed && SignsFor(programs, signers[n].key)
                && forall i :: 0 <= i < n ==> !SignsFor(programs, signers[i].key)
  }

  lemma InfoPermits(env: Env, intent: Intent, programs: seq<AuthorizedProgram>, tokens: AuthorizedTokensWithMints,
    session: FullSession, t: I64, user: Pubkey, signers: seq<Signer>)
    requires NewInfo(env, intent, programs, tokens, intent.expires) == Ok(session.info) && session.major == intent.major
    ensures var r := TokenPermissionsChecked(session, t, user, signers);
            && (r.Ok? <==>
                intent.major == MAJOR && t <= intent.expires && user == intent.signer && DomainSigns(programs, signers))
            && (r.Ok? ==> r.value == WithoutMints(tokens))
  {
    var n := FirstSigner(programs, signers);
    assert Programs(session) == Ok(SpecificPrograms(programs));
  }

  /**
   * A fresh session moves the signer's tokens when a program of the domain signs too, limited
   * exactly if the intent has limits.
   */
  lemma StartPermits(env: Env, w: World, a: StartArgs, t: I64, user: Pubkey, signers: seq<Signer>)
    requires StartSession(env, w, a).Ok?
    ensures var r :=
            TokenPermissionsChecked(At(StartSession(env, w, a).value.accounts, a.session).session, t, user, signers);
            && (r.Ok? <==>
                a.intent.major == MAJOR && t <= a.intent.expires && user == a.intent.signer
                && DomainSigns(a.domainPrograms, signers))
            && (r.Ok? ==> r.value == if a.intent.limits.AnyTokens? then AllTokens else SpecificTokens)
  {
    StartStores(env, w, a);
    StartTokens(env, w, a);
    var session := At(StartSession(env, w, a).value.accounts, a.session).session;
    InfoPermits(env, a.intent, a.domainPrograms, StartMints(env, a), session, t, user, signers);
  }

  function Symbols(limits: seq<TokenLimit>): nat
  {
    if limits == [] then 0 else (if limits[0].token.Symbol? then 1 else 0) + Symbols(limits[1..])
  }

  /** The approval made for a limit, from the accounts at `at`: user account, mint, and for a symbol the metadata. */
  predicate Honours(env: Env, refs: seq<AccountRef>, at: nat, limit: TokenLimit, user: Pubkey, p: PendingApproval)
  {
    && at + 1 < |refs|
    && p.account == refs[at].key == env.ata(user, p.mint)
    && p.mint == refs[at + 1].key
    && refs[at + 1].decimals.Some? && env.uiAmount(limit.amount, refs[at + 1].decimals.value) == Some(p.amount)
    && (limit.token.Mint? ==> p.mint == limit.token.mint)
    && (limit.token.Symbol? ==> at + 2 < |refs| && refs[at + 2].key == env.metadataPda(p.mint)
                                && refs[at + 2].symbol == Some(Padded(limit.token.symbol)))
  }

  lemma HonoursFrom(env: Env, refs: seq<AccountRef>, n: nat, at: nat, limit: TokenLimit, user: Pubkey,
    p: PendingApproval)
    requires n <= |refs| && Honours(env, refs[n..], at, limit, user, p)
    ensures Honours(env, refs, n + at, limit, user, p)
  {
    assert refs[n..][at] == refs[n + at] && refs[n..][at + 1] == refs[n + at + 1];
  }

  lemma FirstHonoured(env: Env, refs: seq<AccountRef>, limit: TokenLimit, user: Pubkey)
    requires ResolveApproval(env, refs, limit, user).Ok?
    ensures Honours(env, refs, 0, limit, user, ResolveApproval(env, refs, limit, user).value)
  {
  }

  /** Where the accounts of a limit start. */
  function Position(limits: seq<TokenLimit>, i: nat): nat
    requires i <= |limits|
  {
    if i == 0 then 0 else Consumed(limits[0]) + Position(limits[1..], i - 1)
  }

  lemma {:induction false} PositionIs(limits: seq<TokenLimit>, i: nat)
    requires i <= |limits|
    ensures Position(limits, i) == 2 * i + Symbols(limits[..i])
  {
    if i > 0 {
      PositionIs(limits[1..], i - 1);
      assert limits[..i][1..] == limits[1..][..i - 1];
    }
  }

  /** The first approval comes from the first accounts, the others from the accounts after them. */
  lemma ApprovalsSplit(env: Env, refs: seq<AccountRef>, limits: seq<TokenLimit>, user: Pubkey,
                       approvals: seq<PendingApproval>)
    requires limits != [] && ResolveApprovals(env, refs, limits, user) == Ok(approvals)
    ensures approvals != [] && ResolveApproval(env, refs, limits[0], user) == Ok(approvals[0])
    ensures Consumed(limits[0]) <= |refs|
    ensures ResolveApprovals(env, refs[Consumed(limits[0])..], limits[1..], user) == Ok(approvals[1..])
  {
  }

  lemma {:induction false} OneApprovalPerLimit(env: Env, refs: seq<AccountRef>, limits: seq<TokenLimit>, user: Pubkey,
                                               approvals: seq<PendingApproval>)
    requires ResolveApprovals(env, refs, limits, user) == Ok(approvals)
    ensures |approvals| == |limits|
    decreases |limits|
  {
    if limits != [] {
      ApprovalsSplit(env, refs, limits, user, approvals);
      OneApprovalPerLimit(env, refs[Consumed(limits[0])..], limits[1..], user, approvals[1..]);
    }
  }

  lemma {:induction false} HonouredAtPosition(env: Env, refs: seq<AccountRef>, limits: seq<TokenLimit>, user: Pubkey,
                                              approvals: seq<PendingApproval>, i: nat)
    requires ResolveApprovals(env, refs, limits, user) == Ok(approvals) && i < |limits| == |approvals|
    ensures Honours(env, refs, Position(limits, i), limits[i], user, approvals[i])
    decreases |limits|
  {
    ApprovalsSplit(env, refs, limits, user, approvals);
    if i == 0 {
      FirstHonoured(env, refs, limits[0], user);
    } else {
      var n, rest := Consumed(limits[0]), limits[1..];
      HonouredAtPosition(env, refs[n..], rest, user, approvals[1..], i - 1);
      HonoursFrom(env, refs, n, Position(rest, i - 1), limits[i], user, approvals[i]);
    }
  }

  /**
   * One approval per signed limit, in order, each from its own accounts: two per limit, and one
   * more per symbol before it.
   */
  lemma ApprovalsHonourLimits(env: Env, refs: seq<AccountRef>, limits: seq<TokenLimit>, user: Pubkey, i: nat)
    requires ResolveApprovals(env, refs, limits, user).Ok? && i < |limits|
    ensures var approvals := ResolveApprovals(env, refs, limits, user).value;
            |approvals| == |limits| && Honours(env, refs, 2 * i + Symbols(limits[..i]), limits[i], user, approvals[i])
  {
    var approvals := ResolveApprovals(env, refs, limits, user).value;
    OneApprovalPerLimit(env, refs, limits, user, approvals);
    HonouredAtPosition(env, refs, limits, user, approvals, i);
    PositionIs(limits, i);
  }

  predicate LastFor(approvals: seq<PendingApproval>, i: nat)
    requires i < |approvals|
  {
    forall j :: i < j < |approvals| ==> approvals[j].account != approvals[i].account
  }

  /** The last approval of an account decides its delegation; an account without one is untouched. */
  lemma {:induction false} ApprovalsTakeEffect(tokens: Tokens, approvals: seq<PendingApproval>, session: Pubkey,
    x: Pubkey)
    requires ApproveAll(tokens, approvals, session).Ok?
    ensures var after := ApproveAll(tokens, approvals, session).value;
            && after.Keys == tokens.Keys
            && (forall i :: 0 <= i < |approvals| && approvals[i].account == x && LastFor(approvals, i) ==>
                 x in tokens && tokens[x].TokenAccount? && x in after
                 && after[x] == tokens[x].(delegation := Some(Delegation(session, approvals[i].amount, true))))
            && ((forall i :: 0 <= i < |approvals| ==> approvals[i].account != x) ==> x in tokens ==>
                after[x] == tokens[x])
    decreases |approvals|
  {
    if approvals != [] {
      var p, rest := approvals[0], approvals[1..];
      var next := Approve(tokens, p.account, p.mint, session, p.amount).value;
      ApprovalsTakeEffect(next, rest, session, x);
      assert forall i :: 0 <= i < |rest| ==> rest[i] == approvals[i + 1];
      forall i | 0 <= i < |approvals| && approvals[i].account == x && LastFor(approvals, i)
        ensures var after := ApproveAll(tokens, approvals, session).value;
                x in tokens && tokens[x].TokenAccount? && x in after
                && after[x] == tokens[x].(delegation := Some(Delegation(session, approvals[i].amount, true)))
      {
        if i > 0 {
          assert rest[i - 1] == approvals[i] && LastFor(rest, i - 1);
        } else {
          assert forall j :: 0 <= j < |rest| ==> rest[j].account != x;
        }
      }
    }
  }

  // ---------- no session outlives the maximum duration ----------

  predicate Bounded(w: World, k: Pubkey)
  {
    var a := At(w.accounts, k);
    a.SessionAccount? && Expiration(a.session).Ok? ==> Expiration(a.session).value <= w.now + 8 * 86_400
  }

  lemma StartChecksExpiration(env: Env, w: World, a: StartArgs)
    requires StartSession(env, w, a).Ok?
    ensures a.intent.expires <= w.now + 8 * 86_400
  {
  }

  lemma BoundedMoved(w: World, w': World, k: Pubkey)
    requires Bounded(w, k) && Moved(w, w', k)
    ensures Bounded(w', k)
  {
  }

  lemma BoundedStep(env: Env, w: World, step: Step, k: Pubkey)
    requires Bounded(w, k)
    ensures Bounded(Execute(env, w, step), k)
  {
    if !StartsKey(step, k) {
      StepMoves(env, w, step, k);
      BoundedMoved(w, Execute(env, w, step), k);
    } else if StartSession(env, w, step.args).Ok? {
      StartStores(env, w, step.args);
      StartChecksExpiration(env, w, step.args);
    }
  }

  /** In every run, no stored session expires more than eight days after the current time. */
  lemma {:induction false} LifetimesStayBounded(env: Env, w: World, steps: seq<Step>, k: Pubkey)
    requires Bounded(w, k)
    ensures Bounded(Run(env, w, steps), k)
    decreases |steps|
  {
    if steps != [] {
      BoundedStep(env, w, steps[0], k);
      LifetimesStayBounded(env, Execute(env, w, steps[0]), steps[1..], k);
    }
  }

  // ---------- revoke ----------

  /** A revocation leaves the session account at exactly its new rent and the sponsor with exactly the difference. */
  lemma RevocationSettles(env: Env, w: World, k: Pubkey, sponsor: Pubkey)
    requires RevokeSession(env, w, k, sponsor).Ok? && F.AtFloor(env, At(w.accounts, k))
    ensures var before, after := w.accounts, RevokeSession(env, w, k, sponsor).value.accounts;
            && At(after, k).SessionAccount? && IsRevoked(At(after, k).session)
            && (k != sponsor ==>
                  && At(after, k).lamports == MinimumBalance(env.rentRate, SpaceOf(At(after, k).session))
                  && At(after, sponsor).lamports ==
                    At(before, sponsor).lamports + (At(before, k).lamports - At(after, k).lamports))
            && forall j :: j != k && j != sponsor ==> At(after, j) == At(before, j)
  {
    var s := At(w.accounts, k).session;
    F.RevokingShrinks(s);
    RentGrows(env.rentRate, SpaceOf(s.(info := RevokedInfo(s.info).value)), SpaceOf(s));
  }

  // ---------- close ----------

  /** The token accounts a close is given: the right ones, readable, and not frozen where they must be cleared. */
  predicate RefsClear(env: Env, tokens: Tokens, refs: seq<Pubkey>, mints: seq<Pubkey>, user: Pubkey, k: Pubkey)
  {
    |refs| >= |mints| && forall i :: 0 <= i < |mints| ==>
      && refs[i] == env.ata(user, mints[i])
      && (refs[i] in tokens ==>
          tokens[refs[i]].TokenAccount? && (DelegatedTo(tokens, refs[i], k) ==> !tokens[refs[i]].frozen))
  }

  lemma {:induction false} RevokeAllSucceeds(tokens: Tokens, pending: seq<Pubkey>)
    ensures RevokeAll(tokens, pending).Ok? <==>
            forall x :: x in pending ==> x in tokens && tokens[x].TokenAccount? && !tokens[x].frozen
    decreases |pending|
  {
    if pending != [] {
      var r := Revoke(tokens, pending[0]);
      assert pending[0] in pending;
      if r.Ok? {
        RevokeAllSucceeds(r.value, pending[1..]);
        assert forall x :: x in pending <==> x == pending[0] || x in pending[1..];
      }
    }
  }

  lemma {:induction false} RevocationsResolve(env: Env, tokens: Tokens, refs: seq<Pubkey>, mints: seq<Pubkey>,
    user: Pubkey, k: Pubkey)
    requires |refs| >= |mints|
    ensures var r := ResolveRevocations(env, tokens, refs, mints, user, k);
            && (r.Ok? <==> forall i :: 0 <= i < |mints| ==>
                  refs[i] == env.ata(user, mints[i]) && (refs[i] in tokens ==> tokens[refs[i]].TokenAccount?))
            && (r.Ok? ==> forall x :: x in r.value <==>
                exists i :: 0 <= i < |mints| && refs[i] == x && DelegatedTo(tokens, x, k))
    decreases |mints|
  {
    if mints != [] {
      RevocationsResolve(env, tokens, refs[1..], mints[1..], user, k);
      var r, rest :=
        ResolveRevocations(env, tokens, refs, mints, user, k),
        ResolveRevocations(env, tokens, refs[1..], mints[1..], user, k);
      assert forall i :: 0 <= i < |mints| - 1 ==> refs[1..][i] == refs[i + 1] && mints[1..][i] == mints[i + 1];
      assert forall i :: 0 < i < |mints| ==> refs[i] == refs[1..][i - 1] && mints[i] == mints[1..][i - 1];
      if r.Ok? {
        forall x ensures x in r.value <==> exists i :: 0 <= i < |mints| && refs[i] == x && DelegatedTo(tokens, x, k)
        {
          if x in rest.value {
            var i :| 0 <= i < |mints[1..]| && refs[1..][i] == x && DelegatedTo(tokens, x, k);
            assert refs[i + 1] == x;
          }
        }
      }
    }
  }

  lemma ClearingSucceeds(env: Env, tokens: Tokens, refs: seq<Pubkey>, mints: seq<Pubkey>, user: Pubkey, k: Pubkey)
    requires |refs| >= |mints|
    ensures (ResolveRevocations(env, tokens, refs, mints, user, k).Ok?
             && RevokeAll(tokens, ResolveRevocations(env, tokens, refs, mints, user, k).value).Ok?)
            <==> RefsClear(env, tokens, refs, mints, user, k)
  {
    RevocationsResolve(env, tokens, refs, mints, user, k);
    var r := ResolveRevocations(env, tokens, refs, mints, user, k);
    if r.Ok? {
      RevokeAllSucceeds(tokens, r.value);
      forall i | 0 <= i < |mints| ensures refs[i] in r.value <==> DelegatedTo(tokens, refs[i], k) {}
    }
  }

  /**
   * Exactly when a session can be closed: it has expired, its own sponsor is named, its version
   * can account for its delegations, and the token accounts given are those of its recorded mints.
   */
  lemma CloseSucceedsExactly(env: Env, w: World, k: Pubkey, sponsor: Pubkey, refs: seq<Pubkey>)
    requires At(w.accounts, k).SessionAccount?
    ensures var a := At(w.accounts, k);
            var target := MintsToRevoke(a.session.info);
            CloseSession(env, w, k, sponsor, refs).Ok? <==>
              && target.Ok? && Expiration(a.session).value < w.now
              && a.session.sponsor == sponsor && sponsor != k
              && RefsClear(env, w.tokens, refs, target.value.1, target.value.0, k)
              && At(w.accounts, sponsor).lamports + a.lamports <= U64_MAX
  {
    var target := MintsToRevoke(At(w.accounts, k).session.info);
    if target.Ok? && |refs| >= |target.value.1| {
      ClearingSucceeds(env, w.tokens, refs, target.value.1, target.value.0, k);
    }
  }

  /** A close empties the session account and gives its sponsor exactly its lamports. */
  lemma CloseSettles(env: Env, w: World, k: Pubkey, sponsor: Pubkey, refs: seq<Pubkey>)
    requires CloseSession(env, w, k, sponsor, refs).Ok?
    ensures var before, after := w.accounts, CloseSession(env, w, k, sponsor, refs).value.accounts;
            && At(after, k) == SystemAccount(0, 0)
            && At(after, sponsor).lamports == At(before, sponsor).lamports + At(before, k).lamports
            && forall j :: j != k && j != sponsor ==> At(after, j) == At(before, j)
  {
  }
}
