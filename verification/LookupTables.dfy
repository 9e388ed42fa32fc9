/**
 * Account resolution through address lookup tables, with the paymaster's shared cache of
 * them. On chain a table only ever grows; the cache holds what some fetch once returned.
 */
module LookupTables {
  import opened Common

  type Tables = map<Pubkey, seq<Pubkey>>

  datatype TableLookup = TableLookup(table: Pubkey, writable: Bytes, readonly: Bytes)

  /** `lookups` is absent in a legacy message. */
  datatype Message = Message(staticKeys: seq<Pubkey>, lookups: Option<seq<TableLookup>>)

  datatype LookupError =
    | AccountIndexOutOfBounds
    | NoLookupTables
    | PositionOutOfBounds
    | FetchFailed
    | NotInTable

  // ---------- which table entry an account index means ----------

  datatype Place = Static(key: Pubkey) | InTable(table: Pubkey, index: nat)

  function Pairs(table: Pubkey, indexes: Bytes): (p: seq<(Pubkey, byte)>)
    ensures |p| == |indexes| && forall i :: 0 <= i < |p| ==> p[i] == (table, indexes[i])
  {
    seq(|indexes|, i requires 0 <= i < |indexes| => (table, indexes[i]))
  }

  function WritablePairs(lookups: seq<TableLookup>): seq<(Pubkey, byte)>
  {
    if lookups == [] then [] else Pairs(lookups[0].table, lookups[0].writable) + WritablePairs(lookups[1..])
  }

  function ReadonlyPairs(lookups: seq<TableLookup>): seq<(Pubkey, byte)>
  {
    if lookups == [] then [] else Pairs(lookups[0].table, lookups[0].readonly) + ReadonlyPairs(lookups[1..])
  }

  function Locate(message: Message, accounts: Bytes, account: nat): Result<Place, LookupError>
  {
    if account >= |accounts| then Err(AccountIndexOutOfBounds)
    else
      var position := accounts[account];
      if position < |message.staticKeys| then Ok(Static(message.staticKeys[position]))
      else if message.lookups.None? then Err(NoLookupTables)
      else
        var pairs := WritablePairs(message.lookups.value) + ReadonlyPairs(message.lookups.value);
        var k := position - |message.staticKeys|;
        if k < |pairs| then Ok(InTable(pairs[k].0, pairs[k].1)) else Err(PositionOutOfBounds)
  }

  // ---------- direct indexing ----------

  function Read(chain: Tables, table: Pubkey, index: nat): Option<Pubkey>
  {
    if table in chain && index < |chain[table]| then Some(chain[table][index]) else None
  }

  function ReadEach(chain: Tables, table: Pubkey, indexes: Bytes): (ks: seq<Option<Pubkey>>)
    ensures |ks| == |indexes| && forall i :: 0 <= i < |ks| ==> ks[i] == Read(chain, table, indexes[i])
  {
    seq(|indexes|, i requires 0 <= i < |indexes| => Read(chain, table, indexes[i]))
  }

  function LoadWritable(chain: Tables, lookups: seq<TableLookup>): seq<Option<Pubkey>>
  {
    if lookups == [] then []
    else ReadEach(chain, lookups[0].table, lookups[0].writable) + LoadWritable(chain, lookups[1..])
  }

  function LoadReadonly(chain: Tables, lookups: seq<TableLookup>): seq<Option<Pubkey>>
  {
    if lookups == [] then []
    else ReadEach(chain, lookups[0].table, lookups[0].readonly) + LoadReadonly(chain, lookups[1..])
  }

  /** The transaction's account list: static keys, then all writable lookups, then all read-only lookups. */
  function LoadedKeys(message: Message, chain: Tables): seq<Option<Pubkey>>
  {
    seq(|message.staticKeys|, i requires 0 <= i < |message.staticKeys| => Some(message.staticKeys[i]))
    + (if message.lookups.None? then []
       else LoadWritable(chain, message.lookups.value) + LoadReadonly(chain, message.lookups.value))
  }

  lemma {:induction false} PairsLoad(chain: Tables, lookups: seq<TableLookup>)
    ensures var w, r := WritablePairs(lookups), ReadonlyPairs(lookups);
            && |w| == |LoadWritable(chain, lookups)| && |r| == |LoadReadonly(chain, lookups)|
            && (forall i :: 0 <= i < |w| ==> LoadWritable(chain, lookups)[i] == Read(chain, w[i].0, w[i].1))
            && (forall i :: 0 <= i < |r| ==> LoadReadonly(chain, lookups)[i] == Read(chain, r[i].0, r[i].1))
  {
    if lookups != [] {
      PairsLoad(chain, lookups[1..]);
    }
  }

  /** What a place holds, given the contents of the tables. */
  function ReadPlace(chain: Tables, place: Place): Option<Pubkey>
  {
    match place
    case Static(key) => Some(key)
    case InTable(table, index) => Read(chain, table, index)
  }

  /** Locating an account and reading that place is indexing the transaction's account list. */
  lemma LocateIsIndexing(message: Message, accounts: Bytes, account: nat, chain: Tables)
    requires account < |accounts|
    ensures var keys, place := LoadedKeys(message, chain), Locate(message, accounts, account);
            && (place.Ok? <==> accounts[account] < |keys|)
            && (place.Ok? ==> keys[accounts[account]] == ReadPlace(chain, place.value))
  {
    if message.lookups.Some? {
      PairsLoad(chain, message.lookups.value);
    }
  }

  /** Why an account has no place: no such account, no lookups to go on to, or not enough of them. */
  lemma LocateRefusals(message: Message, accounts: Bytes, account: nat, chain: Tables)
    ensures Locate(message, accounts, account) == Err(AccountIndexOutOfBounds) <==> account >= |accounts|
    ensures Locate(message, accounts, account) == Err(NoLookupTables) <==>
            account < |accounts| && accounts[account] >= |message.staticKeys| && message.lookups.None?
    ensures Locate(message, accounts, account) == Err(PositionOutOfBounds) <==>
            && account < |accounts| && accounts[account] >= |LoadedKeys(message, chain)| && message.lookups.Some?
  {
    if account < |accounts| {
      LocateIsIndexing(message, accounts, account, chain);
    }
  }

  // ---------- one resolution against the cache ----------

  ghost predicate PrefixesOf(tables: Tables, chain: Tables)
  {
    forall t :: t in tables ==> t in chain && tables[t] <= chain[t]
  }

  class ChainIndex {
    var cache: Tables

    constructor ()
      ensures cache == map[]
    {
      cache := map[];
    }

    method QueryLookupTable(table: Pubkey, index: nat) returns (r: Option<Pubkey>)
      ensures r == Read(cache, table, index)
    {
      if table in cache && index < |cache[table]| {
        return Some(cache[table][index]);
      }
      r := None;
    }

    /** `fetched` is what the RPC node answers, if it is asked at all. */
    method QueryWithRetry(table: Pubkey, index: nat, fetched: Option<seq<Pubkey>>, ghost chain: Tables)
      returns (r: Result<Pubkey, LookupError>)
      requires PrefixesOf(cache, chain)
      requires fetched.Some? ==> table in chain && fetched.value <= chain[table]
      modifies this
      ensures PrefixesOf(cache, chain)
      ensures r.Ok? ==> Read(chain, table, index) == Some(r.value)
      ensures Read(old(cache), table, index).Some? ==> r.Ok? && cache == old(cache)
      ensures r == Err(NotInTable) ==> fetched.Some? && index >= |fetched.value|
      ensures r == Err(NotInTable) && fetched.value == chain[table] ==> Read(chain, table, index) == None
      ensures r == Err(FetchFailed) <==> Read(old(cache), table, index).None? && fetched.None?
      ensures Read(old(cache), table, index).None? ==>
                cache == if fetched.Some? then old(cache)[table := fetched.value] else old(cache)
    {
      var hit := QueryLookupTable(table, index);
      if hit.Some? {
        return Ok(hit.value);
      }
      if fetched.None? {
        return Err(FetchFailed);
      }
      cache := cache[table := fetched.value];
      r := if index < |fetched.value| then Ok(fetched.value[index]) else Err(NotInTable);
    }

    /**
     * Resolution through the cache returns what indexing the transaction's account list returns;
     * an entry reported missing after a fetch of the whole current table is missing from the list.
     */
    method ResolveInstructionAccount(
      message: Message, accounts: Bytes, account: nat, fetched: Option<seq<Pubkey>>, ghost chain: Tables)
      returns (r: Result<Pubkey, LookupError>)
      requires PrefixesOf(cache, chain)
      requires forall table, index ::
        Locate(message, accounts, account) == Ok(InTable(table, index)) && fetched.Some? ==>
          table in chain && fetched.value <= chain[table]
      modifies this
      ensures PrefixesOf(cache, chain)
      ensures r.Ok? ==> account < |accounts| && accounts[account] < |LoadedKeys(message, chain)|
                        && LoadedKeys(message, chain)[accounts[account]] == Some(r.value)
      ensures Locate(message, accounts, account).Err? ==> r == Err(Locate(message, accounts, account).error)
      ensures r == Err(NotInTable) ==>
                var place := Locate(message, accounts, account);
                && place.Ok? && place.value.InTable? && fetched.Some? && |fetched.value| <= place.value.index
                && account < |accounts| && accounts[account] < |LoadedKeys(message, chain)|
                && (fetched.value == chain[place.value.table] ==> LoadedKeys(message, chain)[accounts[account]] == None)
      ensures r == Err(FetchFailed) ==>
                var place := Locate(message, accounts, account);
                && place.Ok? && place.value.InTable? && fetched.None?
                && Read(old(cache), place.value.table, place.value.index).None?
    {
      if account < |accounts| {
        LocateIsIndexing(message, accounts, account, chain);
      }
      var place :- Locate(message, accounts, account);
      match place {
        case Static(key) => r := Ok(key);
        case InTable(table, index) => r := QueryWithRetry(table, index, fetched, chain);
      }
    }
  }

  // ---------- every interleaving of concurrent resolutions ----------

  /** `seen` is the length of the table the caller fetched, 0 if it fetched none. */
  datatype Phase =
    | Asked
    | Missed
    | Fetched(snapshot: seq<Pubkey>)
    | Inserted(inserted: seq<Pubkey>)
    | Done(result: Result<Pubkey, LookupError>, seen: nat)

  datatype Caller = Caller(table: Pubkey, index: nat, phase: Phase)

  datatype State = State(chain: Tables, cache: Tables, callers: map<nat, Caller>)

  /** `Fetch` may return any earlier state of the table: nodes lag, and answers arrive late. */
  datatype Step =
    | Extend(table: Pubkey, more: seq<Pubkey>)
    | Ask(id: nat, table: Pubkey, index: nat)
    | Query(id: nat)
    | Fetch(id: nat, length: nat)
    | FetchError(id: nat)
    | Insert(id: nat)
    | Return(id: nat)

  function WithPhase(s: State, id: nat, phase: Phase): State
    requires id in s.callers
  {
    s.(callers := s.callers[id := s.callers[id].(phase := phase)])
  }

  function Execute(s: State, step: Step): State
  {
    match step
    case Extend(t, more) =>
      s.(chain := s.chain[t := (if t in s.chain then s.chain[t] else []) + more])
    case Ask(id, t, index) =>
      if id in s.callers then s else s.(callers := s.callers[id := Caller(t, index, Asked)])
    case Query(id) =>
      if id !in s.callers || !s.callers[id].phase.Asked? then s
      else
        var hit := Read(s.cache, s.callers[id].table, s.callers[id].index);
        WithPhase(s, id, if hit.Some? then Done(Ok(hit.value), 0) else Missed)
    case Fetch(id, n) =>
      if id !in s.callers || !s.callers[id].phase.Missed? then s
      else
        var t := s.callers[id].table;
        if t !in s.chain || n > |s.chain[t]| then s else WithPhase(s, id, Fetched(s.chain[t][..n]))
    case FetchError(id) =>
      if id !in s.callers || !s.callers[id].phase.Missed? then s else WithPhase(s, id, Done(Err(FetchFailed), 0))
    case Insert(id) =>
      if id !in s.callers || !s.callers[id].phase.Fetched? then s
      else
        var c := s.callers[id];
        WithPhase(s.(cache := s.cache[c.table := c.phase.snapshot]), id, Inserted(c.phase.snapshot))
    case Return(id) =>
      if id !in s.callers || !s.callers[id].phase.Inserted? then s
      else
        var c := s.callers[id];
        var keys := c.phase.inserted;
        WithPhase(s, id, Done(if c.index < |keys| then Ok(keys[c.index]) else Err(NotInTable), |keys|))
  }

  function Run(s: State, steps: seq<Step>): State
    decreases |steps|
  {
    if steps == [] then s else Run(Execute(s, steps[0]), steps[1..])
  }

  /** A run takes its steps one after another. */
  lemma {:induction false} RunGoesOn(s: State, steps: seq<Step>, step: Step)
    ensures Run(s, []) == s
    ensures Run(s, steps + [step]) == Execute(Run(s, steps), step)
    decreases |steps|
  {
    if steps == [] {
      assert [step][1..] == [] && [] + [step] == [step];
    } else {
      assert (steps + [step])[1..] == steps[1..] + [step];
      RunGoesOn(Execute(s, steps[0]), steps[1..], step);
    }
  }

  /** A caller whose entry is cached is answered from the cache; nothing else changes. */
  lemma CachedCallerIsAnswered(s: State, id: nat, table: Pubkey, index: nat)
    requires id !in s.callers && table in s.cache && index < |s.cache[table]|
    ensures var end := Execute(Execute(s, Ask(id, table, index)), Query(id));
            && end.callers == s.callers[id := Caller(table, index, Done(Ok(s.cache[table][index]), 0))]
            && end.cache == s.cache && end.chain == s.chain
  {
  }

  /** Any other caller fetches some earlier state of the table, caches it and answers from it. */
  lemma UncachedCallerFetches(s: State, id: nat, table: Pubkey, index: nat, length: nat)
    requires id !in s.callers && table in s.chain && length <= |s.chain[table]|
    requires table in s.cache ==> index >= |s.cache[table]|
    ensures var fetched := s.chain[table][..length];
            var missed := Execute(Execute(s, Ask(id, table, index)), Query(id));
            var end := Execute(Execute(Execute(missed, Fetch(id, length)), Insert(id)), Return(id));
            && end.callers == s.callers[id := Caller(table, index,
                 Done(if index < length then Ok(s.chain[table][index]) else Err(NotInTable), length))]
            && end.cache == s.cache[table := fetched] && end.chain == s.chain
            && Execute(missed, FetchError(id)).callers ==
               s.callers[id := Caller(table, index, Done(Err(FetchFailed), 0))]
  {
  }

  /** Callers do not disturb each other, and asking under a number in use does nothing. */
  lemma CallersAreApart(s: State, step: Step, id: nat)
    requires id in s.callers
    ensures id in Execute(s, step).callers
    ensures (step.Extend? || step.Ask? || step.id != id) ==> Execute(s, step).callers[id] == s.callers[id]
    ensures step.Extend? ==>
              var before := if step.table in s.chain then s.chain[step.table] else [];
              Execute(s, step).chain == s.chain[step.table := before + step.more]
  {
  }

  predicate CallerAgrees(chain: Tables, c: Caller)
  {
    match c.phase
    case Fetched(snapshot) => c.table in chain && snapshot <= chain[c.table]
    case Inserted(snapshot) => c.table in chain && snapshot <= chain[c.table]
    case Done(Ok(key), _) => Read(chain, c.table, c.index) == Some(key)
    case Done(Err(NotInTable), seen) => c.table in chain && seen <= |chain[c.table]| && seen <= c.index
    case _ => true
  }

  ghost predicate Consistent(s: State)
  {
    PrefixesOf(s.cache, s.chain) && forall id :: id in s.callers ==> CallerAgrees(s.chain, s.callers[id])
  }

  lemma CallerStep(s: State, step: Step, id: nat)
    requires Consistent(s) && id in Execute(s, step).callers
    ensures CallerAgrees(Execute(s, step).chain, Execute(s, step).callers[id])
  {
    assert id in s.callers ==> CallerAgrees(s.chain, s.callers[id]);
  }

  lemma CacheStep(s: State, step: Step)
    requires Consistent(s)
    ensures PrefixesOf(Execute(s, step).cache, Execute(s, step).chain)
    ensures PrefixesOf(s.chain, Execute(s, step).chain)
  {
    if step.Insert? && step.id in s.callers {
      assert CallerAgrees(s.chain, s.callers[step.id]);
    }
  }

  lemma ConsistentStep(s: State, step: Step)
    requires Consistent(s)
    ensures Consistent(Execute(s, step))
    ensures PrefixesOf(s.chain, Execute(s, step).chain)
  {
    CacheStep(s, step);
    forall id | id in Execute(s, step).callers
      ensures CallerAgrees(Execute(s, step).chain, Execute(s, step).callers[id])
    {
      CallerStep(s, step, id);
    }
  }

  /**
   * Under every interleaving, stale fetches overwriting newer ones included, every cached
   * table is a prefix of its on-chain table and every answer already given is what direct
   * indexing gives, now and at every later point of the run.
   */
  lemma {:induction false} CacheStaysConsistent(s: State, steps: seq<Step>)
    requires Consistent(s)
    ensures Consistent(Run(s, steps))
    ensures PrefixesOf(s.chain, Run(s, steps).chain)
    decreases |steps|
  {
    if steps != [] {
      ConsistentStep(s, steps[0]);
      CacheStaysConsistent(Execute(s, steps[0]), steps[1..]);
    }
  }

  /**
   * From an empty cache: a resolution of an instruction account that returned a key returned its
   * entry in the account list, and one that found no entry in a table that is still the whole
   * table stands for an account without an entry.
   */
  lemma AnswersAreDirectIndexing(
    chain: Tables, steps: seq<Step>, id: nat, message: Message, accounts: Bytes, account: nat)
    requires var end := Run(State(chain, map[], map[]), steps);
             && id in end.callers && end.callers[id].phase.Done?
             && Locate(message, accounts, account) == Ok(InTable(end.callers[id].table, end.callers[id].index))
    ensures var end := Run(State(chain, map[], map[]), steps);
            var caller := end.callers[id];
            var keys := LoadedKeys(message, end.chain);
            && accounts[account] < |keys|
            && (caller.phase.result.Ok? ==> keys[accounts[account]] == Some(caller.phase.result.value))
            && (caller.phase.result == Err(NotInTable) ==>
                caller.table in end.chain && caller.phase.seen <= |end.chain[caller.table]|)
            && (caller.phase.result == Err(NotInTable) && caller.phase.seen == |end.chain[caller.table]| ==>
                keys[accounts[account]] == None)
  {
    var end := Run(State(chain, map[], map[]), steps);
    CacheStaysConsistent(State(chain, map[], map[]), steps);
    assert CallerAgrees(end.chain, end.callers[id]);
    LocateIsIndexing(message, accounts, account, end.chain);
  }
}
