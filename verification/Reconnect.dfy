/**
 * The websocket client shared by all callers and replaced under a lock, with the check for
 * an intervening replacement made twice: any number of callers, in any interleaving.
 */
module Reconnect {
  import opened Common

  /** Where a caller is; `client` is the one it loaded first. Clients are numbered by age. */
  datatype Caller =
    | Captured(client: nat)
    | Locked(client: nat)
    | Connecting(client: nat)
    | Finished(client: nat, ok: bool)

  /** `replaced` lists, newest last, who replaced which client. */
  datatype Replacement = Replacement(caller: nat, client: nat)

  datatype State = State(current: nat, lock: Option<nat>, callers: map<nat, Caller>, replaced: seq<Replacement>)

  datatype Step =
    | Load(id: nat)
    | Acquire(id: nat)
    | Compare(id: nat)
    | Store(id: nat)
    | ConnectFails(id: nat)

  function Release(s: State, id: nat, c: Caller): State { s.(lock := None, callers := s.callers[id := c]) }

  /** A step that is not enabled changes nothing. */
  function Execute(s: State, step: Step): State
  {
    match step
    case Load(id) =>
      if id in s.callers then s else s.(callers := s.callers[id := Captured(s.current)])
    case Acquire(id) =>
      if id in s.callers && s.callers[id].Captured? && s.lock.None?
      then s.(lock := Some(id), callers := s.callers[id := Locked(s.callers[id].client)]) else s
    case Compare(id) =>
      if id in s.callers && s.callers[id].Locked? then
        var mine := s.callers[id].client;
        if mine == s.current then s.(callers := s.callers[id := Connecting(mine)])
        else Release(s, id, Finished(mine, true))
      else s
    case Store(id) =>
      if id in s.callers && s.callers[id].Connecting? then
        var s' := Release(s, id, Finished(s.callers[id].client, true));
        s'.(current := s.current + 1, replaced := s.replaced + [Replacement(id, s.current)])
      else s
    case ConnectFails(id) =>
      if id in s.callers && s.callers[id].Connecting? then Release(s, id, Finished(s.callers[id].client, false)) else s
  }

  function Run(s: State, steps: seq<Step>): State
    decreases |steps|
  {
    if steps == [] then s else Run(Execute(s, steps[0]), steps[1..])
  }

  /** A run takes its steps one after another. */
  lemma {:induction false} RunGoesOn(s: State, steps: seq<Step>, step: Step)
    ensures Run(s, []) == s
    ensures Run(s, steps + [step]) == Execute(Run(s, steps), step)
    decreases |steps|
  {
    if steps == [] {
      assert [step][1..] == [] && [] + [step] == [step];
    } else {
      assert (steps + [step])[1..] == steps[1..] + [step];
      RunGoesOn(Execute(s, steps[0]), steps[1..], step);
    }
  }

  predicate HoldsLock(c: Caller) { c.Locked? || c.Connecting? }

  /** What holds of a single caller. */
  predicate CallerInv(s: State, id: nat)
    requires id in s.callers
  {
    var c := s.callers[id];
    && c.client <= s.current
    && (HoldsLock(c) ==> s.lock == Some(id))
    && (c.Connecting? ==> c.client == s.current)
    && (c.Finished? && c.ok ==> c.client < s.current)
  }

  /** The `i`-th replacement replaced client `i`, by a caller that finished with it. */
  predicate ReplacementInv(s: State, i: nat)
    requires i < |s.replaced|
  {
    var r := s.replaced[i];
    r.client == i && r.caller in s.callers && s.callers[r.caller] == Finished(i, true)
  }

  ghost predicate Inv(s: State)
  {
    && (forall id :: id in s.callers ==> CallerInv(s, id))
    && |s.replaced| == s.current
    && (forall i :: 0 <= i < |s.replaced| ==> ReplacementInv(s, i))
  }

  lemma CallerStep(s: State, step: Step, id: nat)
    requires Inv(s) && id in Execute(s, step).callers
    ensures CallerInv(Execute(s, step), id)
  {
    assert id in s.callers ==> CallerInv(s, id);
    assert step.id in s.callers ==> CallerInv(s, step.id);
  }

  lemma ReplacementStep(s: State, step: Step, i: nat)
    requires Inv(s) && i < |Execute(s, step).replaced|
    ensures ReplacementInv(Execute(s, step), i)
  {
    assert step.id in s.callers ==> CallerInv(s, step.id);
    assert i < |s.replaced| ==> ReplacementInv(s, i);
  }

  lemma InvStep(s: State, step: Step)
    requires Inv(s)
    ensures Inv(Execute(s, step))
  {
    forall id | id in Execute(s, step).callers ensures CallerInv(Execute(s, step), id)
    {
      CallerStep(s, step, id);
    }
    forall i | 0 <= i < |Execute(s, step).replaced| ensures ReplacementInv(Execute(s, step), i)
    {
      ReplacementStep(s, step, i);
    }
  }

  lemma {:induction false} InvRun(s: State, steps: seq<Step>)
    requires Inv(s)
    ensures Inv(Run(s, steps))
    decreases |steps|
  {
    if steps != [] {
      InvStep(s, steps[0]);
      InvRun(Execute(s, steps[0]), steps[1..]);
    }
  }

  const INITIAL := State(0, None, map[], [])

  /** A caller alone loads the client, takes the lock and connects: it replaces the client, or fails and leaves it. */
  lemma LoneCallerConnects(s: State, id: nat)
    requires id !in s.callers && s.lock.None?
    ensures var connecting := Execute(Execute(Execute(s, Load(id)), Acquire(id)), Compare(id));
            var stored, failed := Execute(connecting, Store(id)), Execute(connecting, ConnectFails(id));
            && connecting.lock == Some(id) && connecting.current == s.current
            && stored.callers == s.callers[id := Finished(s.current, true)] && stored.lock == None
            && stored.current == s.current + 1 && stored.replaced == s.replaced + [Replacement(id, s.current)]
            && failed.callers == s.callers[id := Finished(s.current, false)] && failed.lock == None
            && failed.current == s.current && failed.replaced == s.replaced
  {
  }

  /** While one caller holds the lock no other can take it. */
  lemma LockExcludes(s: State, id: nat)
    requires s.lock.Some?
    ensures Execute(s, Acquire(id)) == s
  {
  }

  /** A caller that finds its client already replaced needs no connection of its own: it succeeds at once. */
  lemma ReplacedClientSuffices(s: State, id: nat)
    requires Inv(s) && id in s.callers && s.callers[id].Locked?
    ensures var c, s' := s.callers[id].client, Execute(s, Compare(id));
            && (c < s.current ==>
                s'.callers[id] == Finished(c, true) && s'.lock == None && s'.current == s.current)
            && (c == s.current ==> s'.callers[id] == Connecting(c) && s'.lock == Some(id))
            && c <= s.current && s'.replaced == s.replaced
  {
    assert CallerInv(s, id);
  }

  /** A caller fails only when its own attempt to connect fails, with the client it loaded still in use. */
  lemma FailureIsItsOwn(s: State, step: Step, id: nat)
    requires Inv(s) && id in Execute(s, step).callers
    requires Execute(s, step).callers[id].Finished? && !Execute(s, step).callers[id].ok
    ensures id in s.callers
    ensures s.callers[id] == Execute(s, step).callers[id]
            || (step == ConnectFails(id) && s.callers[id] == Connecting(s.current))
  {
    assert id in s.callers ==> CallerInv(s, id);
  }

  /** Callers that load a client at the same time share one replacement: the others follow the one that connects. */
  lemma OneConnectionForAll(s: State, first: nat, second: nat)
    requires Inv(s) && first in s.callers && second in s.callers && first != second
    requires s.callers[first] == Connecting(s.current) && s.callers[second] == Captured(s.current)
    ensures var s1 := Execute(s, Store(first));
            var s2 := Execute(Execute(s1, Acquire(second)), Compare(second));
            && s2.callers[first] == Finished(s.current, true) && s2.callers[second] == Finished(s.current, true)
            && s2.current == s.current + 1 && |s2.replaced| == |s.replaced| + 1
  {
    assert CallerInv(s, first);
  }

  /**
   * In every interleaving: each client is replaced at most once, and only by a caller that had
   * loaded that very client; no caller replaces two; and a caller that returns success is
   * followed by a client newer than the one it loaded.
   */
  lemma ReconnectsOnce(steps: seq<Step>)
    ensures var s := Run(INITIAL, steps);
            && (forall i, j :: 0 <= i < j < |s.replaced| ==>
                s.replaced[i].client != s.replaced[j].client && s.replaced[i].caller != s.replaced[j].caller)
            && (forall i :: 0 <= i < |s.replaced| ==>
                s.replaced[i].caller in s.callers && s.callers[s.replaced[i].caller].client == s.replaced[i].client)
            && (forall id :: id in s.callers && s.callers[id].Finished? && s.callers[id].ok ==>
                s.callers[id].client < s.current)
  {
    InvRun(INITIAL, steps);
    var s := Run(INITIAL, steps);
    forall i | 0 <= i < |s.replaced|
      ensures var r := s.replaced[i]; r.client == i && r.caller in s.callers && s.callers[r.caller] == Finished(i, true)
    {
      assert ReplacementInv(s, i);
    }
    assert forall id :: id in s.callers ==> CallerInv(s, id);
  }
}
