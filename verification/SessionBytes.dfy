/** The run results again, on the account bytes that other programs actually read. */
module SessionBytes {
  import opened Common
  import opened Sessions
  import opened SessionManager
  import opened SessionRuns
  import L = SessionLayout

  predicate Readable(a: Account) { a.SessionAccount? ==> L.Encodable(a.session) }

  ghost predicate WellStored(w: World)
  {
    forall k: Pubkey :: Readable(At(w.accounts, k))
  }

  lemma ReadableStep(env: Env, w: World, step: Step, k: Pubkey)
    requires Readable(At(w.accounts, k))
    ensures Readable(At(Execute(env, w, step).accounts, k))
  {
    if !StartsKey(step, k) {
      StepMoves(env, w, step, k);
    } else if StartSession(env, w, step.args).Ok? {
      StartStores(env, w, step.args);
    }
  }

  /** Every session account in every run holds a session that can be read back from its bytes. */
  lemma {:induction false} StaysWellStored(env: Env, w: World, steps: seq<Step>)
    requires WellStored(w)
    ensures WellStored(Run(env, w, steps))
    decreases |steps|
  {
    if steps != [] {
      forall k: Pubkey ensures Readable(At(Execute(env, w, steps[0]).accounts, k))
      {
        ReadableStep(env, w, steps[0], k);
      }
      StaysWellStored(env, Execute(env, w, steps[0]), steps[1..]);
    }
  }

  /** The system program's check and the token program's check, each from the raw account data. */
  predicate BytesPass(data: Bytes, now: I64)
  {
    var full, truncated := L.Decode(data), L.DecodeTruncated(data);
    (full.Ok? && UserChecked(full.value, now).Ok?) || (truncated.Ok? && UserChecked(truncated.value, now).Ok?)
  }

  /** On the bytes of a stored session, both layouts decide exactly as the check on the session does. */
  lemma StoredBytesDecide(s: FullSession, rest: Bytes, now: I64)
    requires L.Encodable(s)
    ensures L.Decode(L.Encode(s, rest)) == Ok(s)
    ensures BytesPass(L.Encode(s, rest), now) <==> CheckLiveAndUnrevoked(s, now).Ok?
  {
    L.RoundTrip(s, rest);
    L.SystemProgramCheckAgrees(L.Encode(s, rest), now);
  }

  /** Whichever layout a program reads, the bytes stored under a revoked key never pass again. */
  lemma RevokedBytesStayDead(env: Env, w: World, steps: seq<Step>, k: Pubkey, e: I64, rest: Bytes)
    requires WellStored(w) && Dead(w, k, e) && StartsExpireBy(steps, k, e)
    ensures var end := Run(env, w, steps);
            At(end.accounts, k).SessionAccount? ==> !BytesPass(L.Encode(At(end.accounts, k).session, rest), end.now)
  {
    var end := Run(env, w, steps);
    RevokedStaysDead(env, w, steps, k, e);
    StaysWellStored(env, w, steps);
    if At(end.accounts, k).SessionAccount? {
      StoredBytesDecide(At(end.accounts, k).session, rest, end.now);
    }
  }
}
