/**
 * Exactly when a start, a revocation or a close succeeds, and exactly what it leaves behind, in
 * terms of the arguments and of the state before it.
 */
module SessionExact {
  import opened Common
  import opened Sessions
  import opened IntentTypes
  import opened SessionManager
  import opened SessionRuns
  import opened SessionEffects
  import Borsh
  import Utf8
  import L = SessionLayout
  import F = SessionFunds

  // ---------- when approvals resolve and take effect ----------

  /** The symbol, then NUL characters up to ten. */
  predicate IsPadded(symbol: string, text: string)
  {
    && |text| == Max(10, |symbol|) && text[..|symbol|] == symbol
    && forall i :: |symbol| <= i < |text| ==> text[i] == '\0'
  }

  lemma PaddedIs(symbol: string, text: string)
    ensures text == Padded(symbol) <==> IsPadded(symbol, text)
  {
    if IsPadded(symbol, text) {
      assert forall i :: 0 <= i < |symbol| ==> text[i] == text[..|symbol|][i];
      assert text == Padded(symbol);
    }
  }

  /** Where the accounts of limit `i` start: two for each limit before it, and one more for each symbol. */
  function Slot(limits: seq<TokenLimit>, i: nat): nat
    requires i <= |limits|
  {
    2 * i + Symbols(limits[..i])
  }

  /** The accounts at `at` are what the limit needs: the signer's token account, the mint, for a symbol the metadata. */
  predicate Resolvable(env: Env, refs: seq<AccountRef>, at: nat, limit: TokenLimit, user: Pubkey)
  {
    && at + (if limit.token.Symbol? then 3 else 2) <= |refs|
    && refs[at].key == env.ata(user, refs[at + 1].key)
    && refs[at + 1].decimals.Some? && env.uiAmount(limit.amount, refs[at + 1].decimals.value).Some?
    && match limit.token
       case Mint(mint) => refs[at + 1].key == mint
       case Symbol(symbol) =>
         && refs[at + 2].key == env.metadataPda(refs[at + 1].key)
         && refs[at + 2].symbol.Some? && IsPadded(symbol, refs[at + 2].symbol.value)
  }

  lemma FirstResolves(env: Env, refs: seq<AccountRef>, limit: TokenLimit, user: Pubkey)
    ensures ResolveApproval(env, refs, limit, user).Ok? <==> Resolvable(env, refs, 0, limit, user)
  {
    if limit.token.Symbol? && |refs| > 2 && refs[2].symbol.Some? {
      PaddedIs(limit.token.symbol, refs[2].symbol.value);
    }
  }

  lemma ResolvableFrom(env: Env, refs: seq<AccountRef>, n: nat, at: nat, limit: TokenLimit, user: Pubkey)
    requires n <= |refs|
    ensures Resolvable(env, refs[n..], at, limit, user) <==> Resolvable(env, refs, n + at, limit, user)
  {
    assert forall i :: 0 <= i < |refs| - n ==> refs[n..][i] == refs[n + i];
  }

  ghost predicate AllResolvable(env: Env, refs: seq<AccountRef>, limits: seq<TokenLimit>, user: Pubkey)
  {
    forall i :: 0 <= i < |limits| ==> Resolvable(env, refs, Position(limits, i), limits[i], user)
  }

  lemma AllResolvableStep(env: Env, refs: seq<AccountRef>, limits: seq<TokenLimit>, user: Pubkey)
    requires limits != [] && Consumed(limits[0]) <= |refs|
    ensures AllResolvable(env, refs, limits, user) <==>
            && Resolvable(env, refs, 0, limits[0], user)
            && AllResolvable(env, refs[Consumed(limits[0])..], limits[1..], user)
  {
    var n, rest := Consumed(limits[0]), limits[1..];
    forall i | 0 < i < |limits|
      ensures Resolvable(env, refs, Position(limits, i), limits[i], user) <==>
              Resolvable(env, refs[n..], Position(rest, i - 1), rest[i - 1], user)
    {
      ResolvableFrom(env, refs, n, Position(rest, i - 1), limits[i], user);
    }
    if AllResolvable(env, refs, limits, user) {
      assert Resolvable(env, refs, Position(limits, 0), limits[0], user);
      forall i | 0 <= i < |rest| ensures Resolvable(env, refs[n..], Position(rest, i), rest[i], user)
      {
        assert Resolvable(env, refs, Position(limits, i + 1), limits[i + 1], user);
      }
    }
  }

  lemma NotResolvable(env: Env, refs: seq<AccountRef>, limits: seq<TokenLimit>, user: Pubkey)
    requires limits != []
    ensures AllResolvable(env, refs, limits, user) ==> Consumed(limits[0]) <= |refs|
  {
    assert AllResolvable(env, refs, limits, user) ==> Resolvable(env, refs, Position(limits, 0), limits[0], user);
  }

  lemma {:induction false} ApprovalsResolve(env: Env, refs: seq<AccountRef>, limits: seq<TokenLimit>, user: Pubkey)
    ensures ResolveApprovals(env, refs, limits, user).Ok? <==> AllResolvable(env, refs, limits, user)
    decreases |limits|
  {
    if limits != [] {
      FirstResolves(env, refs, limits[0], user);
      if Consumed(limits[0]) <= |refs| {
        AllResolvableStep(env, refs, limits, user);
        ApprovalsResolve(env, refs[Consumed(limits[0])..], limits[1..], user);
      } else {
        NotResolvable(env, refs, limits, user);
      }
    }
  }

  /** Approvals resolve exactly when every limit finds its accounts in its slot. */
  lemma ApprovalsResolveExactly(env: Env, refs: seq<AccountRef>, limits: seq<TokenLimit>, user: Pubkey)
    ensures ResolveApprovals(env, refs, limits, user).Ok? <==>
            forall i :: 0 <= i < |limits| ==> Resolvable(env, refs, Slot(limits, i), limits[i], user)
  {
    ApprovalsResolve(env, refs, limits, user);
    forall i | 0 <= i < |limits| ensures Position(limits, i) == Slot(limits, i)
    {
      PositionIs(limits, i);
    }
  }

  /** The mint account is the one the limit names, or one whose metadata has the limit's symbol. */
  predicate Designates(env: Env, refs: seq<AccountRef>, limit: TokenLimit)
    requires (if limit.token.Symbol? then 3 else 2) <= |refs|
  {
    match limit.token
    case Mint(mint) => refs[1].key == mint
    case Symbol(symbol) =>
      && refs[2].key == env.metadataPda(refs[1].key)
      && refs[2].symbol.Some? && IsPadded(symbol, refs[2].symbol.value)
  }

  /** Which error a limit gives that does not resolve. */
  lemma ApprovalRefusals(env: Env, refs: seq<AccountRef>, limit: TokenLimit, user: Pubkey)
    ensures var r := ResolveApproval(env, refs, limit, user);
            && (r == Err(MissingAccount) <==> |refs| < if limit.token.Symbol? then 3 else 2)
            && (r != Err(MissingAccount) ==>
                && (r == Err(MetadataMismatch) <==>
                    limit.token.Symbol? && refs[2].key != env.metadataPda(refs[1].key))
                && (r == Err(SymbolMismatch) <==>
                    && limit.token.Symbol? && refs[2].key == env.metadataPda(refs[1].key)
                    && refs[2].symbol.Some? && !IsPadded(limit.token.symbol, refs[2].symbol.value))
                && (r == Err(MintMismatch) <==> limit.token.Mint? && refs[1].key != limit.token.mint)
                && (r == Err(AssociatedTokenAccountMismatch) <==>
                    Designates(env, refs, limit) && refs[0].key != env.ata(user, refs[1].key))
                && (r == Err(AmountConversionFailed) <==>
                    && Designates(env, refs, limit) && refs[0].key == env.ata(user, refs[1].key)
                    && refs[1].decimals.Some? && env.uiAmount(limit.amount, refs[1].decimals.value).None?))
  {
    if limit.token.Symbol? && |refs| > 2 && refs[2].symbol.Some? {
      PaddedIs(limit.token.symbol, refs[2].symbol.value);
    }
  }

  predicate ResolvesAt(env: Env, refs: seq<AccountRef>, limits: seq<TokenLimit>, user: Pubkey, i: nat)
    requires i < |limits|
  {
    Resolvable(env, refs, Position(limits, i), limits[i], user)
  }

  lemma ResolvesLater(env: Env, refs: seq<AccountRef>, limits: seq<TokenLimit>, user: Pubkey, i: nat)
    requires 0 < i < |limits| && Consumed(limits[0]) <= |refs|
    ensures ResolvesAt(env, refs[Consumed(limits[0])..], limits[1..], user, i - 1) <==>
            ResolvesAt(env, refs, limits, user, i)
  {
    ResolvableFrom(env, refs, Consumed(limits[0]), Position(limits[1..], i - 1), limits[i], user);
  }

  /** The limits before `i` resolve, and `i` gives the error. */
  ghost predicate RefusedAt(env: Env, refs: seq<AccountRef>, limits: seq<TokenLimit>, user: Pubkey, i: nat,
    error: Error)
  {
    && i < |limits| && Position(limits, i) <= |refs|
    && (forall j :: 0 <= j < i ==> ResolvesAt(env, refs, limits, user, j))
    && ResolveApproval(env, refs[Position(limits, i)..], limits[i], user) == Err(error)
  }

  lemma RefusedLater(env: Env, refs: seq<AccountRef>, limits: seq<TokenLimit>, user: Pubkey, i: nat, error: Error)
    requires limits != [] && ResolveApproval(env, refs, limits[0], user).Ok?
    requires RefusedAt(env, refs[Consumed(limits[0])..], limits[1..], user, i, error)
    ensures RefusedAt(env, refs, limits, user, i + 1, error)
  {
    var n, rest := Consumed(limits[0]), limits[1..];
    forall j | 0 <= j < i + 1 ensures ResolvesAt(env, refs, limits, user, j)
    {
      if j == 0 {
        FirstResolves(env, refs, limits[0], user);
      } else {
        assert ResolvesAt(env, refs[n..], rest, user, j - 1);
        ResolvesLater(env, refs, limits, user, j);
      }
    }
    assert refs[n..][Position(rest, i)..] == refs[n + Position(rest, i)..];
  }

  /** The first limit that does not resolve, against the accounts from its slot on, decides the error. */
  lemma {:induction false} FirstRefusalDecides(env: Env, refs: seq<AccountRef>, limits: seq<TokenLimit>, user: Pubkey)
    requires ResolveApprovals(env, refs, limits, user).Err?
    ensures exists i :: RefusedAt(env, refs, limits, user, i, ResolveApprovals(env, refs, limits, user).error)
    decreases |limits|
  {
    var error := ResolveApprovals(env, refs, limits, user).error;
    if ResolveApproval(env, refs, limits[0], user).Err? {
      assert refs[0..] == refs;
      assert RefusedAt(env, refs, limits, user, 0, error);
    } else {
      var n, rest := Consumed(limits[0]), limits[1..];
      FirstRefusalDecides(env, refs[n..], rest, user);
      var i :| RefusedAt(env, refs[n..], rest, user, i, error);
      RefusedLater(env, refs, limits, user, i, error);
    }
  }

  /** An unfrozen token account of that mint. */
  predicate Approvable(tokens: Tokens, account: Pubkey, mint: Pubkey)
  {
    account in tokens && tokens[account].TokenAccount? && !tokens[account].frozen && tokens[account].mint == mint
  }

  lemma {:induction false} ApprovalsApply(tokens: Tokens, approvals: seq<PendingApproval>, session: Pubkey)
    ensures ApproveAll(tokens, approvals, session).Ok? <==>
            forall i :: 0 <= i < |approvals| ==> Approvable(tokens, approvals[i].account, approvals[i].mint)
    decreases |approvals|
  {
    if approvals != [] {
      var p, rest := approvals[0], approvals[1..];
      var next := Approve(tokens, p.account, p.mint, session, p.amount);
      if next.Ok? {
        ApprovalsApply(next.value, rest, session);
        assert forall i :: 0 < i < |approvals| ==> approvals[i] == rest[i - 1];
        assert forall i :: 0 <= i < |rest| ==> rest[i] == approvals[i + 1];
        assert forall x, m :: Approvable(next.value, x, m) <==> Approvable(tokens, x, m);
      }
    }
  }

  // ---------- what a start stores, and its size ----------

  function ItemsSize(extra: seq<ExtraItem>): nat
  {
    if extra == [] then 0 else 8 + |extra[0].key| + |extra[0].value| + ItemsSize(extra[1..])
  }

  lemma {:induction false} ItemsLength(extra: seq<ExtraItem>, rest: Bytes)
    ensures |Borsh.PutMany(L.PutExtraItem, extra, rest)| == ItemsSize(extra) + |rest|
  {
    if extra != [] {
      ItemsLength(extra[1..], rest);
    }
  }

  lemma ProgramsLength(programs: seq<AuthorizedProgram>, rest: Bytes)
    ensures |L.PutPrograms(SpecificPrograms(programs), rest)| == 5 + 64 * |programs| + |rest|
  {
    Borsh.ManyLength(L.PutProgram, 64, programs, rest);
  }

  /** How many bytes each version's token field takes: one, or with limits a count and the mints from version 3 on. */
  function TokensSize(a: StartArgs): nat
  {
    if a.intent.minor <= 2 || a.intent.limits.AnyTokens? then 1 else 5 + 32 * |a.intent.limits.limits|
  }

  /** Discriminator, sponsor, major and version; a state byte from version 2 on and a hash at version 4; the session. */
  function StartSize(a: StartArgs): nat
  {
    42 + (if a.intent.minor == 1 then 0 else if a.intent.minor == 4 then 33 else 1)
    + 40 + (5 + 64 * |a.domainPrograms|) + TokensSize(a) + (4 + ItemsSize(a.intent.extra))
  }

  /** The mints of the limits, each from the account after the limit's token account; or none named at all. */
  ghost predicate NamesMints(a: StartArgs, t: AuthorizedTokensWithMints)
  {
    match a.intent.limits
    case AnyTokens => t.AllMints?
    case SpecificLimits(limits) =>
      && t.SpecificMints? && |t.mints| == |limits|
      && forall i :: 0 <= i < |limits| ==>
           var at := Slot(limits, i); at + 1 < |a.remaining| && t.mints[i] == a.remaining[at + 1].key
  }

  /** User, expiration, programs and extras of an active session are the intent's and the domain's. */
  predicate FromIntent<T>(a: StartArgs, v: Active<Grants<T>>)
  {
    && v.user == a.intent.signer && v.expiration == a.intent.expires
    && v.grants.programs == SpecificPrograms(a.domainPrograms) && v.grants.extra == a.intent.extra
  }

  /** The session a start must store, version by version. */
  ghost predicate Starts(env: Env, a: StartArgs, s: FullSession)
  {
    && s.sponsor == a.sponsor && s.major == a.intent.major
    && match s.info
       case V1(v) =>
         a.intent.minor == 1 && FromIntent(a, v) && (v.grants.tokens.AllTokens? <==> a.intent.limits.AnyTokens?)
       case V2Active(v) =>
         a.intent.minor == 2 && FromIntent(a, v) && (v.grants.tokens.AllTokens? <==> a.intent.limits.AnyTokens?)
       case V3Active(v) => a.intent.minor == 3 && FromIntent(a, v) && NamesMints(a, v.grants.tokens)
       case V4Active(hash, v) =>
         && a.intent.minor == 4 && hash == env.domainHash(a.intent.domain)
         && FromIntent(a, v) && NamesMints(a, v.grants.tokens)
       case _ => false
  }

  lemma StartMintsAreNamed(env: Env, a: StartArgs)
    requires StartApprovals(env, a).Ok?
    ensures NamesMints(a, StartMints(env, a))
  {
    if a.intent.limits.SpecificLimits? {
      var limits := a.intent.limits.limits;
      forall i | 0 <= i < |limits|
        ensures var at, t := Slot(limits, i), StartMints(env, a);
                |t.mints| == |limits| && at + 1 < |a.remaining| && t.mints[i] == a.remaining[at + 1].key
      {
        ApprovalsHonourLimits(env, a.remaining, limits, a.intent.signer, i);
      }
      OneApprovalPerLimit(env, a.remaining, limits, a.intent.signer, StartApprovals(env, a).value);
    }
  }

  lemma StartedSessionStarts(env: Env, a: StartArgs)
    requires StartApprovals(env, a).Ok?
    ensures StartedSession(env, a).Ok? <==> 1 <= a.intent.minor <= 4
    ensures StartedSession(env, a).Ok? ==> Starts(env, a, StartedSession(env, a).value)
  {
    StartMintsAreNamed(env, a);
  }

  lemma GrantsLength<T>(put: Borsh.Writer<T>, g: Grants<T>, n: nat, programs: seq<AuthorizedProgram>)
    requires g.programs == SpecificPrograms(programs)
    requires forall tail: Bytes :: |put(g.tokens, tail)| == n + |tail|
    ensures |L.PutGrants(put, g, [])| == 5 + 64 * |programs| + n + (4 + ItemsSize(g.extra))
  {
    var extra := Borsh.PutVec(L.PutExtraItem, g.extra, []);
    ItemsLength(g.extra, []);
    ProgramsLength(programs, put(g.tokens, extra));
  }

  lemma PlainSize(a: StartArgs, v: Active<PlainGrants>)
    requires FromIntent(a, v) && a.intent.minor <= 2
    ensures |L.PutPlain(v, [])| == 40 + (5 + 64 * |a.domainPrograms|) + TokensSize(a) + (4 + ItemsSize(a.intent.extra))
  {
    GrantsLength(L.PutTokens, v.grants, 1, a.domainPrograms);
  }

  lemma MintsGrantSize(a: StartArgs, v: Active<MintGrants>)
    requires FromIntent(a, v) && a.intent.minor > 2 && NamesMints(a, v.grants.tokens)
    ensures |L.PutWithMints(v, [])| ==
            40 + (5 + 64 * |a.domainPrograms|) + TokensSize(a) + (4 + ItemsSize(a.intent.extra))
  {
    forall tail: Bytes ensures |L.PutMints(v.grants.tokens, tail)| == TokensSize(a) + |tail|
    {
      F.MintsLength(v.grants.tokens, tail);
    }
    GrantsLength(L.PutMints, v.grants, TokensSize(a), a.domainPrograms);
  }

  lemma StartedSize(env: Env, a: StartArgs, s: FullSession)
    requires Starts(env, a, s)
    ensures SpaceOf(s) == StartSize(a)
  {
    match s.info
    case V1(v) => PlainSize(a, v);
    case V2Active(v) => PlainSize(a, v);
    case V3Active(v) => MintsGrantSize(a, v);
    case V4Active(_, v) => MintsGrantSize(a, v);
  }

  /** Counts fit into 32 bits and extras are UTF-8. */
  predicate IntentEncodable(a: StartArgs)
  {
    && |a.domainPrograms| <= U32_MAX && |a.intent.extra| <= U32_MAX
    && (forall e :: e in a.intent.extra ==>
          |e.key| <= U32_MAX && |e.value| <= U32_MAX && Utf8.Valid(e.key) && Utf8.Valid(e.value))
    && (a.intent.minor >= 3 && a.intent.limits.SpecificLimits? ==> |a.intent.limits.limits| <= U32_MAX)
  }

  lemma StartedEncodable(env: Env, a: StartArgs, s: FullSession)
    requires Starts(env, a, s)
    ensures L.Encodable(s) <==> IntentEncodable(a)
  {
  }

  // ---------- funding the account ----------

  /** The key holds no data, the space is allowed, and what is missing of the rent can be paid without overflow. */
  predicate CanFund(rate: pos, accounts: Accounts, payer: Pubkey, k: Pubkey, space: nat)
  {
    var a, p := At(accounts, k), At(accounts, payer);
    var missing := (128 + space) * rate - a.lamports;
    && a.SystemAccount? && a.space == 0 && space <= 10_485_760
    && (missing > 0 ==>
        && p.SystemAccount? && p.space == 0 && missing <= p.lamports
        && (if payer == k then a.lamports else a.lamports + missing) <= U64_MAX)
  }

  /** Funding succeeds exactly then; it moves exactly what is missing and touches no other account. */
  lemma FundingExactly(rate: pos, accounts: Accounts, payer: Pubkey, k: Pubkey, space: nat)
    ensures InitializeAccount(rate, accounts, payer, k, space).Ok? <==> CanFund(rate, accounts, payer, k, space)
    ensures InitializeAccount(rate, accounts, payer, k, space).Ok? ==>
              var after := InitializeAccount(rate, accounts, payer, k, space).value;
              var missing := Max((128 + space) * rate - At(accounts, k).lamports, 0);
              && At(after, k) == SystemAccount(At(accounts, k).lamports + (if payer == k then 0 else missing), 0)
              && (payer != k ==> At(after, payer).lamports == At(accounts, payer).lamports - missing
                                 && (missing == 0 ==> At(after, payer) == At(accounts, payer)))
              && forall j :: j != k && j != payer ==> At(after, j) == At(accounts, j)
  {
  }

  /** A key that has never held anything can be funded by any system account that can pay the rent. */
  lemma FreshKeyIsFunded(rate: pos, accounts: Accounts, payer: Pubkey, k: Pubkey, space: nat)
    requires k !in accounts && payer in accounts && accounts[payer].SystemAccount? && accounts[payer].space == 0
    requires (128 + space) * rate <= accounts[payer].lamports && (128 + space) * rate <= U64_MAX
    requires space <= 10_485_760
    ensures var r := InitializeAccount(rate, accounts, payer, k, space);
            r.Ok? && k in r.value && r.value[k] == SystemAccount((128 + space) * rate, 0)
  {
    FundingExactly(rate, accounts, payer, k, space);
  }

  // ---------- start ----------

  /** The signer's token account for the limit resolves and may be approved for. */
  predicate Grantable(env: Env, tokens: Tokens, refs: seq<AccountRef>, at: nat, limit: TokenLimit, user: Pubkey)
  {
    Resolvable(env, refs, at, limit, user) && Approvable(tokens, refs[at].key, refs[at + 1].key)
  }

  ghost predicate LimitsGrantable(env: Env, w: World, a: StartArgs)
  {
    a.intent.limits.SpecificLimits? ==>
      AllGrantable(env, w.tokens, a.remaining, a.intent.limits.limits, a.intent.signer)
  }

  lemma ApprovalsAreAt(env: Env, refs: seq<AccountRef>, limits: seq<TokenLimit>, user: Pubkey,
                       approvals: seq<PendingApproval>, i: nat)
    requires ResolveApprovals(env, refs, limits, user) == Ok(approvals) && i < |limits|
    ensures var at := Slot(limits, i);
            && |approvals| == |limits| && at + 1 < |refs|
            && approvals[i].account == refs[at].key && approvals[i].mint == refs[at + 1].key
  {
    ApprovalsHonourLimits(env, refs, limits, user, i);
  }

  lemma GrantableAt(env: Env, tokens: Tokens, refs: seq<AccountRef>, limits: seq<TokenLimit>, user: Pubkey,
                    approvals: seq<PendingApproval>, i: nat)
    requires ResolveApprovals(env, refs, limits, user) == Ok(approvals) && i < |limits| == |approvals|
    ensures Approvable(tokens, approvals[i].account, approvals[i].mint) <==>
            Grantable(env, tokens, refs, Slot(limits, i), limits[i], user)
  {
    ApprovalsAreAt(env, refs, limits, user, approvals, i);
    ApprovalsResolveExactly(env, refs, limits, user);
    assert Resolvable(env, refs, Slot(limits, i), limits[i], user);
  }

  ghost predicate AllGrantable(env: Env, tokens: Tokens, refs: seq<AccountRef>, limits: seq<TokenLimit>, user: Pubkey)
  {
    forall i :: 0 <= i < |limits| ==> Grantable(env, tokens, refs, Slot(limits, i), limits[i], user)
  }

  lemma GrantableApplies(env: Env, tokens: Tokens, refs: seq<AccountRef>, limits: seq<TokenLimit>, user: Pubkey,
                         approvals: seq<PendingApproval>, session: Pubkey)
    requires ResolveApprovals(env, refs, limits, user) == Ok(approvals) && |approvals| == |limits|
    requires AllGrantable(env, tokens, refs, limits, user)
    ensures ApproveAll(tokens, approvals, session).Ok?
  {
    forall i | 0 <= i < |limits| ensures Approvable(tokens, approvals[i].account, approvals[i].mint)
    {
      GrantableAt(env, tokens, refs, limits, user, approvals, i);
    }
    ApprovalsApply(tokens, approvals, session);
  }

  lemma AppliedGrantable(env: Env, tokens: Tokens, refs: seq<AccountRef>, limits: seq<TokenLimit>, user: Pubkey,
                         approvals: seq<PendingApproval>, session: Pubkey)
    requires ResolveApprovals(env, refs, limits, user) == Ok(approvals) && |approvals| == |limits|
    requires ApproveAll(tokens, approvals, session).Ok?
    ensures AllGrantable(env, tokens, refs, limits, user)
  {
    ApprovalsApply(tokens, approvals, session);
    forall i | 0 <= i < |limits| ensures Grantable(env, tokens, refs, Slot(limits, i), limits[i], user)
    {
      GrantableAt(env, tokens, refs, limits, user, approvals, i);
    }
  }

  lemma ResolvedApply(env: Env, tokens: Tokens, refs: seq<AccountRef>, limits: seq<TokenLimit>, user: Pubkey,
                      approvals: seq<PendingApproval>, session: Pubkey)
    requires ResolveApprovals(env, refs, limits, user) == Ok(approvals)
    ensures ApproveAll(tokens, approvals, session).Ok? <==> AllGrantable(env, tokens, refs, limits, user)
  {
    OneApprovalPerLimit(env, refs, limits, user, approvals);
    if AllGrantable(env, tokens, refs, limits, user) {
      GrantableApplies(env, tokens, refs, limits, user, approvals, session);
    } else if ApproveAll(tokens, approvals, session).Ok? {
      AppliedGrantable(env, tokens, refs, limits, user, approvals, session);
    }
  }

  lemma ApprovalsSucceed(env: Env, w: World, a: StartArgs)
    ensures StartApprovals(env, a).Ok? && ApproveAll(w.tokens, StartApprovals(env, a).value, a.session).Ok?
            <==> LimitsGrantable(env, w, a)
  {
    if a.intent.limits.SpecificLimits? {
      var limits, user := a.intent.limits.limits, a.intent.signer;
      if StartApprovals(env, a).Ok? {
        ResolvedApply(env, w.tokens, a.remaining, limits, user, StartApprovals(env, a).value, a.session);
      } else {
        ApprovalsResolveExactly(env, a.remaining, limits, user);
        var i :| 0 <= i < |limits| && !Resolvable(env, a.remaining, Slot(limits, i), limits[i], user);
        assert !Grantable(env, w.tokens, a.remaining, Slot(limits, i), limits[i], user);
      }
    }
  }

  /** The guards of a start that come before and after its token approvals. */
  predicate NamesThisSession(env: Env, w: World, a: StartArgs)
  {
    && a.chainId == a.intent.chainId && a.session == a.intent.sessionKey
    && a.intent.expires <= w.now + 8 * 86_400
    && a.registry == env.recordAddress(a.intent.domain) && 1 <= a.intent.minor <= 4
  }

  lemma StartGuards(env: Env, w: World, a: StartArgs)
    ensures StartSession(env, w, a).Ok? <==>
            && NamesThisSession(env, w, a)
            && StartApprovals(env, a).Ok? && ApproveAll(w.tokens, StartApprovals(env, a).value, a.session).Ok?
            && StartedSession(env, a).Ok? && L.Encodable(StartedSession(env, a).value)
            && InitializeAccount(env.rentRate, w.accounts, a.sponsor, a.session,
                                 SpaceOf(StartedSession(env, a).value)).Ok?
  {
  }

  /**
   * Exactly when a start succeeds: it is for this chain, this session key and this domain's record,
   * expires within eight days, has a known version, its limits can be granted, it can be encoded
   * and its account can be funded.
   */
  lemma StartSucceedsExactly(env: Env, w: World, a: StartArgs)
    ensures StartSession(env, w, a).Ok? <==>
            && a.chainId == a.intent.chainId && a.session == a.intent.sessionKey
            && a.intent.expires <= w.now + 8 * 86_400
            && a.registry == env.recordAddress(a.intent.domain) && 1 <= a.intent.minor <= 4
            && LimitsGrantable(env, w, a) && IntentEncodable(a)
            && CanFund(env.rentRate, w.accounts, a.sponsor, a.session, StartSize(a))
  {
    StartGuards(env, w, a);
    ApprovalsSucceed(env, w, a);
    if StartApprovals(env, a).Ok? {
      StartedSessionStarts(env, a);
      if StartedSession(env, a).Ok? {
        var s := StartedSession(env, a).value;
        StartedSize(env, a, s);
        StartedEncodable(env, a, s);
        FundingExactly(env.rentRate, w.accounts, a.sponsor, a.session, SpaceOf(s));
      }
    }
  }

  /** What a start leaves: the session of its version with the intent's contents, in an account of exactly its size. */
  lemma StartStoresExactly(env: Env, w: World, a: StartArgs)
    requires StartSession(env, w, a).Ok?
    ensures var w' := StartSession(env, w, a).value;
            var account := At(w'.accounts, a.session);
            && account.SessionAccount? && Starts(env, a, account.session) && account.space == StartSize(a)
            && w'.now == w.now
  {
    StartGuards(env, w, a);
    StartUnfolds(env, w, a);
    StartedSessionStarts(env, a);
    StartedSize(env, a, StartedSession(env, a).value);
  }

  /** A start takes exactly the missing rent from the sponsor and touches no third account. */
  lemma StartSettles(env: Env, w: World, a: StartArgs)
    requires StartSession(env, w, a).Ok?
    ensures var before, after := w.accounts, StartSession(env, w, a).value.accounts;
            var missing := Max((128 + StartSize(a)) * env.rentRate - At(before, a.session).lamports, 0);
            && At(after, a.session).lamports ==
               At(before, a.session).lamports + (if a.sponsor == a.session then 0 else missing)
            && (a.sponsor != a.session ==> At(after, a.sponsor).lamports == At(before, a.sponsor).lamports - missing)
            && forall j :: j != a.session && j != a.sponsor ==> At(after, j) == At(before, j)
  {
    var funded := StartFunds(env, w, a);
    FundingExactly(env.rentRate, w.accounts, a.sponsor, a.session, StartSize(a));
  }

  lemma StartFunds(env: Env, w: World, a: StartArgs) returns (funded: Accounts)
    requires StartSession(env, w, a).Ok?
    ensures InitializeAccount(env.rentRate, w.accounts, a.sponsor, a.session, StartSize(a)) == Ok(funded)
    ensures var after := StartSession(env, w, a).value.accounts;
            && At(after, a.session).lamports == At(funded, a.session).lamports
            && forall j :: j != a.session ==> At(after, j) == At(funded, j)
  {
    StartGuards(env, w, a);
    StartUnfolds(env, w, a);
    StartedSessionStarts(env, a);
    StartedSize(env, a, StartedSession(env, a).value);
    funded := InitializeAccount(env.rentRate, w.accounts, a.sponsor, a.session, StartSize(a)).value;
  }

  /** The first guard that fails decides the error. */
  lemma StartRefusals(env: Env, w: World, a: StartArgs)
    ensures var r := StartSession(env, w, a);
            var chain, key := a.chainId == a.intent.chainId, a.session == a.intent.sessionKey;
            var short, granted := a.intent.expires <= w.now + 8 * 86_400, LimitsGrantable(env, w, a);
            var record := a.registry == env.recordAddress(a.intent.domain);
            && (!chain ==> r == Err(ChainIdMismatch))
            && (chain && !key ==> r == Err(SessionKeyMismatch))
            && (chain && key && !short ==> r == Err(SessionTooLong))
            && (chain && key && short && granted && !record ==> r == Err(DomainRecordMismatch))
            && (chain && key && short && granted && record && !(1 <= a.intent.minor <= 4) ==> r == Err(InvalidVersion))
  {
    ApprovalsSucceed(env, w, a);
  }

  // ---------- revoke ----------

  /** What revoking makes of a session, version by version; a revoked session stays as it is. */
  predicate RevokesTo(before: FullInfo, after: FullInfo)
  {
    match before
    case Invalid => false
    case V1(_) => false
    case V2Active(v) => after == V2Revoked(v.expiration)
    case V3Active(v) => after == V3Revoked(Revoked(v.user, v.expiration, v.grants.tokens))
    case V4Active(_, v) => after == V4Revoked(Revoked(v.user, v.expiration, v.grants.tokens))
    case V2Revoked(_) => after == before
    case V3Revoked(_) => after == before
    case V4Revoked(_) => after == before
  }

  function RecordedMintsSize(t: AuthorizedTokensWithMints): nat
  {
    match t
    case AllMints => 1
    case SpecificMints(mints) => 5 + 32 * |mints|
  }

  /** The size of the account that is left: a version 2 session keeps its expiration alone. */
  function RevokedSize(info: FullInfo): nat
  {
    match info
    case V3Active(v) => 83 + RecordedMintsSize(v.grants.tokens)
    case V4Active(_, v) => 83 + RecordedMintsSize(v.grants.tokens)
    case V3Revoked(r) => 83 + RecordedMintsSize(r.tokens)
    case V4Revoked(r) => 83 + RecordedMintsSize(r.tokens)
    case _ => 51
  }

  predicate Revocable(info: FullInfo)
  {
    info.V2Active? || info.V3Active? || info.V4Active? || info.V2Revoked? || info.V3Revoked? || info.V4Revoked?
  }

  lemma RevokedInfoIs(s: FullSession)
    ensures RevokedInfo(s.info).Ok? <==> Revocable(s.info)
    ensures Revocable(s.info) ==>
              && RevokesTo(s.info, RevokedInfo(s.info).value)
              && SpaceOf(s.(info := RevokedInfo(s.info).value)) == RevokedSize(s.info)
  {
    match s.info
    case V3Active(v) => F.RevokedLength(Revoked(v.user, v.expiration, v.grants.tokens));
    case V4Active(_, v) => F.RevokedLength(Revoked(v.user, v.expiration, v.grants.tokens));
    case V3Revoked(r) => F.RevokedLength(r);
    case V4Revoked(r) => F.RevokedLength(r);
    case _ =>
  }

  /** What the account holds beyond its new rent. */
  function Excess(env: Env, a: Account): nat
    requires a.SessionAccount?
  {
    Max(a.lamports - (128 + RevokedSize(a.session.info)) * env.rentRate, 0)
  }

  /**
   * Exactly when a revocation succeeds: the account holds a session of version 2, 3 or 4, revoked or
   * not, its own sponsor is named, and the refund fits into the sponsor's balance.
   */
  lemma RevokeSucceedsExactly(env: Env, w: World, k: Pubkey, sponsor: Pubkey)
    ensures RevokeSession(env, w, k, sponsor).Ok? <==>
            var a := At(w.accounts, k);
            && a.SessionAccount? && a.session.sponsor == sponsor && Revocable(a.session.info)
            && (Excess(env, a) > 0 ==>
                (if k == sponsor then a.lamports else At(w.accounts, sponsor).lamports + Excess(env, a)) <= U64_MAX)
  {
    var a := At(w.accounts, k);
    if a.SessionAccount? {
      RevokedInfoIs(a.session);
    }
  }

  /** What a revocation leaves: the revoked form under the same sponsor and version, the new size and the refund. */
  lemma RevokeStoresExactly(env: Env, w: World, k: Pubkey, sponsor: Pubkey)
    requires RevokeSession(env, w, k, sponsor).Ok?
    ensures var w' := RevokeSession(env, w, k, sponsor).value;
            var a, b := At(w.accounts, k), At(w'.accounts, k);
            && a.SessionAccount? && b.SessionAccount? && w'.now == w.now && w'.tokens == w.tokens
            && b.session.sponsor == a.session.sponsor && b.session.major == a.session.major
            && RevokesTo(a.session.info, b.session.info) && b.space == RevokedSize(a.session.info)
            && b.lamports == a.lamports - (if k == sponsor then 0 else Excess(env, a))
            && (k != sponsor ==>
                At(w'.accounts, sponsor).lamports == At(w.accounts, sponsor).lamports + Excess(env, a))
            && forall j :: j != k && j != sponsor ==> At(w'.accounts, j) == At(w.accounts, j)
  {
    RevokedInfoIs(At(w.accounts, k).session);
  }

  lemma RevokeRefusals(env: Env, w: World, k: Pubkey, sponsor: Pubkey)
    ensures var r, a := RevokeSession(env, w, k, sponsor), At(w.accounts, k);
            && (!a.SessionAccount? ==> r == Err(InvalidAccount))
            && (a.SessionAccount? && a.session.sponsor != sponsor ==> r == Err(SponsorMismatch))
            && (a.SessionAccount? && a.session.sponsor == sponsor && (a.session.info.V1? || a.session.info.Invalid?) ==>
                r == Err(InvalidVersion))
  {
  }

  // ---------- close ----------

  /** Versions 3 and 4 name the token accounts to clear; 1 and an active 2 can be closed without limits only. */
  ghost predicate Closes(env: Env, tokens: Tokens, info: FullInfo, refs: seq<Pubkey>, k: Pubkey)
  {
    match info
    case V1(v) => v.grants.tokens.AllTokens?
    case V2Active(v) => v.grants.tokens.AllTokens?
    case V3Active(v) => ClearsMints(env, tokens, v.user, v.grants.tokens, refs, k)
    case V4Active(_, v) => ClearsMints(env, tokens, v.user, v.grants.tokens, refs, k)
    case V3Revoked(r) => ClearsMints(env, tokens, r.user, r.tokens, refs, k)
    case V4Revoked(r) => ClearsMints(env, tokens, r.user, r.tokens, refs, k)
    case V2Revoked(_) => false
    case Invalid => false
  }

  ghost predicate ClearsMints(env: Env, tokens: Tokens, user: Pubkey, t: AuthorizedTokensWithMints, refs: seq<Pubkey>,
                              k: Pubkey)
  {
    match t
    case AllMints => true
    case SpecificMints(mints) => RefsClear(env, tokens, refs, mints, user, k)
  }

  /** Exactly when a session can be closed, in terms of what its version records. */
  lemma CloseExactly(env: Env, w: World, k: Pubkey, sponsor: Pubkey, refs: seq<Pubkey>)
    ensures CloseSession(env, w, k, sponsor, refs).Ok? <==>
            var a := At(w.accounts, k);
            && a.SessionAccount? && a.session.sponsor == sponsor && sponsor != k
            && Expiration(a.session).Ok? && Expiration(a.session).value < w.now
            && Closes(env, w.tokens, a.session.info, refs, k)
            && At(w.accounts, sponsor).lamports + a.lamports <= U64_MAX
  {
    if At(w.accounts, k).SessionAccount? {
      CloseSucceedsExactly(env, w, k, sponsor, refs);
    }
  }

  /** The mints a close clears. */
  function RecordedMints(info: FullInfo): seq<Pubkey>
  {
    match info
    case V3Active(v) => if v.grants.tokens.SpecificMints? then v.grants.tokens.mints else []
    case V4Active(_, v) => if v.grants.tokens.SpecificMints? then v.grants.tokens.mints else []
    case V3Revoked(r) => if r.tokens.SpecificMints? then r.tokens.mints else []
    case V4Revoked(r) => if r.tokens.SpecificMints? then r.tokens.mints else []
    case _ => []
  }

  /**
   * A close clears, of the accounts given for the recorded mints, exactly those delegated to the
   * key, and nothing else.
   */
  lemma CloseClears(env: Env, w: World, k: Pubkey, sponsor: Pubkey, refs: seq<Pubkey>, x: Pubkey)
    requires CloseSession(env, w, k, sponsor, refs).Ok?
    ensures var mints := RecordedMints(At(w.accounts, k).session.info);
            var before, after := w.tokens, CloseSession(env, w, k, sponsor, refs).value.tokens;
            var cleared := DelegatedTo(before, x, k) && exists i :: 0 <= i < |mints| <= |refs| && refs[i] == x;
            && (x in after <==> x in before)
            && (cleared ==> after[x] == TokenAccount(before[x].mint, before[x].frozen, None))
            && (!cleared && x in before ==> after[x] == before[x])
            && CloseSession(env, w, k, sponsor, refs).value.now == w.now
  {
    var (user, mints) := MintsToRevoke(At(w.accounts, k).session.info).value;
    var pending := ResolveRevocations(env, w.tokens, refs, mints, user, k).value;
    RevocationsResolve(env, w.tokens, refs, mints, user, k);
    RevokeAllClears(w.tokens, pending, x);
  }

  lemma CloseRefusals(env: Env, w: World, k: Pubkey, sponsor: Pubkey, refs: seq<Pubkey>)
    ensures var r, a := CloseSession(env, w, k, sponsor, refs), At(w.accounts, k);
            && (!a.SessionAccount? || a.session.info.Invalid? ==> r == Err(InvalidAccount))
            && (a.SessionAccount? && !a.session.info.Invalid? ==>
                var expired := Expiration(a.session).value < w.now;
                && (!expired ==> r == Err(SessionIsLive))
                && (expired && a.session.sponsor != sponsor ==> r == Err(SponsorMismatch))
                && (expired && a.session.sponsor == sponsor != k ==>
                    && (a.session.info.V2Revoked? ==> r == Err(InvalidVersion))
                    && (|refs| < |RecordedMints(a.session.info)| ==> r == Err(MissingAccount))))
  {
  }

  // ---------- the checks on a stored session ----------

  /** What an unrevoked session stands for, whatever its version. */
  datatype Mandate = Mandate(user: Pubkey, expiration: I64, programs: AuthorizedPrograms, tokens: AuthorizedTokens)

  function Limited(t: AuthorizedTokensWithMints): AuthorizedTokens
  {
    match t
    case AllMints => AllTokens
    case SpecificMints(_) => SpecificTokens
  }

  function MandateOf(s: FullSession): Option<Mandate>
  {
    match s.info
    case V1(v) => Some(Mandate(v.user, v.expiration, v.grants.programs, v.grants.tokens))
    case V2Active(v) => Some(Mandate(v.user, v.expiration, v.grants.programs, v.grants.tokens))
    case V3Active(v) => Some(Mandate(v.user, v.expiration, v.grants.programs, Limited(v.grants.tokens)))
    case V4Active(_, v) => Some(Mandate(v.user, v.expiration, v.grants.programs, Limited(v.grants.tokens)))
    case _ => None
  }

  /** Of the current major version, not revoked, not expired. */
  predicate Stands(s: FullSession, now: I64)
  {
    s.major == 0 && MandateOf(s).Some? && now <= MandateOf(s).value.expiration
  }

  /** The check every program makes, and which error it gives. */
  lemma CheckExactly(s: FullSession, now: I64)
    ensures CheckLiveAndUnrevoked(s, now).Ok? <==> Stands(s, now)
    ensures CheckLiveAndUnrevoked(s, now) == Err(InvalidAccountVersion) <==> s.major != 0 || s.info.Invalid?
    ensures CheckLiveAndUnrevoked(s, now) == Err(RevokedSession) <==>
            s.major == 0 && (s.info.V2Revoked? || s.info.V3Revoked? || s.info.V4Revoked?)
    ensures CheckLiveAndUnrevoked(s, now) == Err(Expired) <==>
            s.major == 0 && MandateOf(s).Some? && now > MandateOf(s).value.expiration
  {
  }

  predicate Admits(programs: AuthorizedPrograms, p: Pubkey)
  {
    match programs
    case AllPrograms => true
    case SpecificPrograms(list) => exists i :: 0 <= i < |list| && list[i].programId == p
  }

  /** Another program gets the user of a standing session that admits it, and an error otherwise. */
  lemma ProgramCheckExactly(s: FullSession, now: I64, p: Pubkey)
    ensures UserCheckedForProgram(s, now, p).Ok? <==> Stands(s, now) && Admits(MandateOf(s).value.programs, p)
    ensures UserCheckedForProgram(s, now, p).Ok? ==> UserCheckedForProgram(s, now, p).value == MandateOf(s).value.user
    ensures Stands(s, now) && !Admits(MandateOf(s).value.programs, p) ==>
              UserCheckedForProgram(s, now, p) == Err(UnauthorizedProgram)
    ensures DomainHashChecked(s, now).Ok? <==> Stands(s, now) && s.info.V4Active?
    ensures DomainHashChecked(s, now).Ok? ==> DomainHashChecked(s, now).value == s.info.domainHash
  {
  }

  /** The first account given that is a signer address of the programs has signed. */
  predicate ProgramsSign(programs: AuthorizedPrograms, signers: seq<Signer>)
  {
    match programs
    case AllPrograms => true
    case SpecificPrograms(list) => DomainSigns(list, signers)
  }

  /** The token program gets the limits of a standing session of that user whose programs sign. */
  lemma TokenCheckExactly(s: FullSession, now: I64, user: Pubkey, signers: seq<Signer>)
    ensures var r := TokenPermissionsChecked(s, now, user, signers);
            && (r.Ok? <==>
                && Stands(s, now) && MandateOf(s).value.user == user
                && ProgramsSign(MandateOf(s).value.programs, signers))
            && (r.Ok? ==> r.value == MandateOf(s).value.tokens)
            && (Stands(s, now) && MandateOf(s).value.user != user ==> r == Err(UserMismatch))
  {
    if Stands(s, now) {
      ProgramSignerExactly(s, MandateOf(s).value.programs, signers);
    }
  }

  lemma ProgramSignerExactly(s: FullSession, programs: AuthorizedPrograms, signers: seq<Signer>)
    requires Programs(s) == Ok(programs)
    ensures CheckProgramSigner(s, signers).Ok? <==> ProgramsSign(programs, signers)
    ensures CheckProgramSigner(s, signers) == Err(UnauthorizedProgram) <==>
            programs.SpecificPrograms? && forall i :: 0 <= i < |signers| ==>
              !SignsFor(programs.programs, signers[i].key)
  {
    if programs.SpecificPrograms? {
      var n := FirstSigner(programs.programs, signers);
    }
  }
}
