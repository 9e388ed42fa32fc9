/**
 * The domain registry's record of programs: an account whose bytes are an array of 64-byte
 * entries, grown, swapped and shrunk in place, with rent moved as it changes size.
 */
module DomainRegistry {
  import opened Common

  datatype DomainProgram = DomainProgram(programId: Pubkey, signerPda: Pubkey)

  /** The record as a list, and the balances around it. `others` is everyone else's lamports. */
  datatype Registry = Registry(owned: bool, programs: seq<DomainProgram>, record: nat, authority: nat, others: nat)

  datatype Error = ProgramAlreadyAdded | ProgramNotFound | InsufficientFunds | Overflow | AccountTooLarge | OutOfRange

  const ENTRY := 64
  const MAX_SPACE := 10 * 1024 * 1024

  /** The rent rate and the derivation of a program's signer address. */
  datatype Env = Env(rentRate: pos, signerPda: Pubkey -> Pubkey)

  // ---------- the record as a list ----------

  function Required(rate: pos, programs: seq<DomainProgram>): nat
  {
    if programs == [] then 0 else MinimumBalance(rate, ENTRY * |programs|)
  }

  /** `adjust_rent_if_needed`: fund the record up to its rent, or return what exceeds it. */
  function AdjustRent(rate: pos, s: Registry): Result<Registry, Error>
  {
    var required := Required(rate, s.programs);
    if s.record < required then
      if s.authority < required - s.record then Err(InsufficientFunds)
      else Ok(s.(record := required, authority := s.authority - (required - s.record)))
    else if s.record > required && s.authority + (s.record - required) > U64_MAX then Err(Overflow)
    else Ok(s.(record := required, authority := s.authority + (s.record - required)))
  }

  /** `create_domain_record_if_needed`, for an empty account. */
  function CreateIfNeeded(rate: pos, s: Registry): Result<Registry, Error>
  {
    if s.owned then Ok(s)
    else
      var minimum := MinimumBalance(rate, 0);
      var required := SatSub(Max(minimum, 1), s.record);
      if s.authority < required then Err(InsufficientFunds)
      else Ok(s.(owned := true, record := s.record + required, authority := s.authority - required))
  }

  function Entry(env: Env, program: Pubkey): DomainProgram { DomainProgram(program, env.signerPda(program)) }

  function Push(env: Env, s: Registry, e: DomainProgram): Result<Registry, Error>
  {
    if ENTRY * (|s.programs| + 1) > MAX_SPACE then Err(AccountTooLarge)
    else AdjustRent(env.rentRate, s.(programs := s.programs + [e]))
  }

  function AddProgram(env: Env, s: Registry, program: Pubkey): Result<Registry, Error>
  {
    var created :- CreateIfNeeded(env.rentRate, s);
    if Entry(env, program) in created.programs then Err(ProgramAlreadyAdded)
    else Push(env, created, Entry(env, program))
  }

  /** The first entry for the program. */
  function Position(programs: seq<DomainProgram>, program: Pubkey): (i: nat)
    ensures i <= |programs|
    ensures i < |programs| ==> programs[i].programId == program
    ensures forall j :: 0 <= j < i ==> programs[j].programId != program
  {
    if programs == [] || programs[0].programId == program then 0 else 1 + Position(programs[1..], program)
  }

  /** The list with the last entry moved into position `i`. */
  function SwapRemoved(programs: seq<DomainProgram>, i: nat): seq<DomainProgram>
    requires i < |programs|
  {
    programs[i := programs[|programs| - 1]][..|programs| - 1]
  }

  function RemoveProgram(env: Env, s: Registry, program: Pubkey): Result<Registry, Error>
  {
    var i := Position(s.programs, program);
    if i == |s.programs| then Err(ProgramNotFound)
    else AdjustRent(env.rentRate, s.(programs := SwapRemoved(s.programs, i)))
  }

  // ---------- the record as bytes ----------

  function Encode(e: DomainProgram): (b: Bytes)
    ensures |b| == ENTRY
  {
    e.programId + e.signerPda
  }

  function Decode(b: Bytes): DomainProgram
    requires |b| == ENTRY
  {
    DomainProgram(b[..32], b[32..])
  }

  lemma EntryInverse(e: DomainProgram, b: Bytes)
    ensures Decode(Encode(e)) == e
    ensures |b| == ENTRY ==> Encode(Decode(b)) == b
  {
    assert Encode(e)[..32] == e.programId && Encode(e)[32..] == e.signerPda;
  }

  function Chunk(data: Bytes, i: nat): (b: Bytes)
    requires ENTRY * i + ENTRY <= |data|
    ensures |b| == ENTRY
  {
    data[ENTRY * i..ENTRY * i + ENTRY]
  }

  /** `cast_slice`: the bytes read as entries. */
  function Elements(data: Bytes): (es: seq<DomainProgram>)
    requires |data| % ENTRY == 0
    ensures |es| == |data| / ENTRY
    ensures forall i :: 0 <= i < |es| ==> es[i] == Decode(Chunk(data, i))
  {
    seq(|data| / ENTRY, i requires 0 <= i < |data| / ENTRY => Decode(Chunk(data, i)))
  }

  function WithChunk(data: Bytes, i: nat, b: Bytes): (r: Bytes)
    requires ENTRY * i + ENTRY <= |data| && |b| == ENTRY
    ensures |r| == |data|
  {
    data[..ENTRY * i] + b + data[ENTRY * i + ENTRY..]
  }

  lemma ElementsWithChunk(data: Bytes, i: nat, b: Bytes)
    requires |data| % ENTRY == 0 && i < |data| / ENTRY && |b| == ENTRY
    ensures Elements(WithChunk(data, i, b)) == Elements(data)[i := Decode(b)]
  {
    var data' := WithChunk(data, i, b);
    forall j | 0 <= j < |data| / ENTRY ensures Chunk(data', j) == if j == i then b else Chunk(data, j)
    {
      if j < i {
        assert ENTRY * j + ENTRY <= ENTRY * i;
      } else if j > i {
        assert ENTRY * j >= ENTRY * i + ENTRY;
      }
    }
  }

  lemma EarlierChunk(data: Bytes, b: Bytes, j: nat)
    requires ENTRY * j + ENTRY <= |data|
    ensures Chunk(data + b, j) == Chunk(data, j)
  {
  }

  lemma LastChunk(data: Bytes, b: Bytes, j: nat)
    requires ENTRY * j == |data| && |b| == ENTRY
    ensures Chunk(data + b, j) == b
  {
  }

  lemma ElementsAppended(data: Bytes, e: DomainProgram)
    requires |data| % ENTRY == 0
    ensures Elements(data + Encode(e)) == Elements(data) + [e]
  {
    var data' := data + Encode(e);
    forall j | 0 <= j < |data| / ENTRY + 1 ensures Elements(data')[j] == (Elements(data) + [e])[j]
    {
      EntryInverse(e, data);
      if j == |data| / ENTRY {
        LastChunk(data, Encode(e), j);
      } else {
        EarlierChunk(data, Encode(e), j);
      }
    }
  }

  lemma ElementsTruncated(data: Bytes)
    requires |data| % ENTRY == 0 && data != []
    ensures Elements(data[..|data| - ENTRY]) == Elements(data)[..|data| / ENTRY - 1]
  {
    var data' := data[..|data| - ENTRY];
    forall j | 0 <= j < |data'| / ENTRY ensures Chunk(data', j) == Chunk(data, j)
    {
    }
  }

  class DomainRecord {
    var owned: bool
    var data: Bytes
    var record: nat
    var authority: nat
    ghost const others: nat

    ghost predicate Valid()
      reads this
    {
      |data| % ENTRY == 0
    }

    ghost function View(): Registry
      requires Valid()
      reads this
    {
      Registry(owned, Elements(data), record, authority, others)
    }

    constructor (authority: nat, others: nat)
      ensures Valid() && View() == Registry(false, [], 0, authority, others)
    {
      this.owned, this.data, this.record, this.authority, this.others := false, [], 0, authority, others;
    }

    method Contains(e: DomainProgram) returns (found: bool)
      requires Valid()
      ensures found <==> e in Elements(data)
    {
      found := false;
      for i := 0 to |data| / ENTRY
        invariant found <==> e in Elements(data)[..i]
      {
        if Decode(Chunk(data, i)) == e {
          found := true;
        }
        assert Elements(data)[..i + 1] == Elements(data)[..i] + [Elements(data)[i]];
      }
      assert Elements(data)[..|data| / ENTRY] == Elements(data);
    }

    method FindProgram(program: Pubkey) returns (r: Option<nat>)
      requires Valid()
      ensures r == var i := Position(Elements(data), program); if i < |Elements(data)| then Some(i) else None
    {
      for i := 0 to |data| / ENTRY
        invariant forall j :: 0 <= j < i ==> Elements(data)[j].programId != program
      {
        if Decode(Chunk(data, i)).programId == program {
          return Some(i);
        }
      }
      r := None;
    }

    method AdjustRentIfNeeded(rate: pos) returns (r: Result<(), Error>)
      requires Valid()
      modifies this`record, this`authority
      ensures Valid()
      ensures match AdjustRent(rate, old(View()))
              case Ok(s) => r.Ok? && View() == s
              case Err(e) => r == Err(e) && View() == old(View())
    {
      assert Elements(data) == [] <==> data == [];
      var required := if data == [] then 0 else MinimumBalance(rate, |data|);
      var transfer := SatSub(required, record);
      if transfer > 0 {
        if authority < transfer {
          return Err(InsufficientFunds);
        }
        authority, record := authority - transfer, record + transfer;
      }
      var withdraw := SatSub(record, required);
      if withdraw > 0 {
        if authority + withdraw > U64_MAX {
          return Err(Overflow);
        }
        authority, record := authority + withdraw, record - withdraw;
      }
      r := Ok(());
    }

    /** Grows the account by one entry, then writes the entry into the new space. */
    method PushEntry(env: Env, e: DomainProgram) returns (r: Result<(), Error>)
      requires Valid()
      modifies this`data, this`record, this`authority
      ensures Valid()
      ensures match Push(env, old(View()), e)
              case Ok(s) => r.Ok? && View() == s
              case Err(error) => r == Err(error) && View() == old(View())
    {
      var before := data;
      if |data| + ENTRY > MAX_SPACE {
        return Err(AccountTooLarge);
      }
      var blank := DomainProgram(seq(32, _ => 0), seq(32, _ => 0));
      ElementsAppended(data, blank);
      ElementsAppended(data, e);
      data := data + Encode(blank);
      var adjusted := AdjustRentIfNeeded(env.rentRate);
      if adjusted.Err? {
        data := before;
        return adjusted;
      }
      data := data[..|data| - ENTRY] + Encode(e);
      assert data == before + Encode(e);
      r := Ok(());
    }

    /** Swaps the entry with the last one and drops the last one. */
    method SwapRemove(env: Env, index: nat) returns (r: Result<(), Error>)
      requires Valid()
      modifies this`data, this`record, this`authority
      ensures Valid()
      ensures index >= |old(View()).programs| ==> r == Err(OutOfRange) && View() == old(View())
      ensures index < |old(View()).programs| ==>
              match AdjustRent(env.rentRate, old(View()).(programs := SwapRemoved(old(View()).programs, index)))
              case Ok(s) => r.Ok? && View() == s
              case Err(error) => r == Err(error) && View() == old(View())
    {
      var before := data;
      var n := |data| / ENTRY;
      if index >= n {
        return Err(OutOfRange);
      }
      var mine, last := Chunk(data, index), Chunk(data, n - 1);
      ElementsWithChunk(data, index, last);
      data := WithChunk(data, index, last);
      ElementsWithChunk(data, n - 1, mine);
      data := WithChunk(data, n - 1, mine);
      ElementsTruncated(data);
      data := data[..|data| - ENTRY];
      assert Elements(data) == SwapRemoved(Elements(before), index);
      r := AdjustRentIfNeeded(env.rentRate);
      if r.Err? {
        data := before;
      }
    }

    method Add(env: Env, program: Pubkey) returns (r: Result<(), Error>)
      requires Valid()
      modifies this
      ensures Valid()
      ensures match AddProgram(env, old(View()), program)
              case Ok(s) => r.Ok? && View() == s
              case Err(error) => r == Err(error) && View() == old(View())
    {
      var wasOwned, oldRecord, oldAuthority := owned, record, authority;
      if !owned {
        var minimum := MinimumBalance(env.rentRate, 0);
        var required := SatSub(Max(minimum, 1), record);
        if authority < required {
          return Err(InsufficientFunds);
        }
        owned, record, authority := true, record + required, authority - required;
      }
      var known := Contains(Entry(env, program));
      if known {
        r := Err(ProgramAlreadyAdded);
      } else {
        r := PushEntry(env, Entry(env, program));
      }
      if r.Err? {
        owned, record, authority := wasOwned, oldRecord, oldAuthority;
      }
    }

    method Remove(env: Env, program: Pubkey) returns (r: Result<(), Error>)
      requires Valid()
      modifies this`data, this`record, this`authority
      ensures Valid()
      ensures match RemoveProgram(env, old(View()), program)
              case Ok(s) => r.Ok? && View() == s
              case Err(error) => r == Err(error) && View() == old(View())
    {
      var index := FindProgram(program);
      if index.None? {
        return Err(ProgramNotFound);
      }
      r := SwapRemove(env, index.value);
    }
  }

  // ---------- every run refines a set of programs ----------

  datatype Step = Add(program: Pubkey) | Remove(program: Pubkey) | Deposit(amount: nat) | Purge

  /** Anyone may pay into the record; the runtime reclaims an account without lamports. */
  function Attempt(env: Env, s: Registry, step: Step): Result<Registry, Error>
  {
    match step
    case Add(p) => AddProgram(env, s, p)
    case Remove(p) => RemoveProgram(env, s, p)
    case Deposit(n) =>
      if n <= s.others then Ok(s.(others := s.others - n, record := s.record + n)) else Err(InsufficientFunds)
    case Purge => if s.record == 0 then Ok(s.(owned := false, programs := [])) else Err(OutOfRange)
  }

  function Execute(env: Env, s: Registry, step: Step): Registry
  {
    var r := Attempt(env, s, step);
    if r.Ok? then r.value else s
  }

  function Run(env: Env, s: Registry, steps: seq<Step>): Registry
    decreases |steps|
  {
    if steps == [] then s else Run(env, Execute(env, s, steps[0]), steps[1..])
  }

  /** A run takes its steps one after another. */
  lemma {:induction false} RunGoesOn(env: Env, s: Registry, steps: seq<Step>, step: Step)
    ensures Run(env, s, []) == s
    ensures Run(env, s, steps + [step]) == Execute(env, Run(env, s, steps), step)
    decreases |steps|
  {
    if steps == [] {
      assert [step][1..] == [] && [] + [step] == [step];
    } else {
      assert (steps + [step])[1..] == steps[1..] + [step];
      RunGoesOn(env, Execute(env, s, steps[0]), steps[1..], step);
    }
  }

  function Ids(programs: seq<DomainProgram>): set<Pubkey> { set e | e in programs :: e.programId }

  function Total(s: Registry): nat { s.record + s.authority + s.others }

  /**
   * One entry per program, each with its derived signer; an account not yet created is empty; a
   * listed program is paid for.
   */
  ghost predicate Inv(env: Env, s: Registry)
  {
    && (forall i :: 0 <= i < |s.programs| ==> s.programs[i] == Entry(env, s.programs[i].programId))
    && (forall i, j :: 0 <= i < j < |s.programs| ==> s.programs[i].programId != s.programs[j].programId)
    && (!s.owned ==> s.programs == [])
    && s.record >= Required(env.rentRate, s.programs)
  }

  /** The set of programs as each successful step changes it. */
  function SetStep(programs: set<Pubkey>, step: Step): set<Pubkey>
  {
    match step
    case Add(p) => programs + {p}
    case Remove(p) => programs - {p}
    case _ => programs
  }

  lemma AddStep(env: Env, s: Registry, p: Pubkey)
    requires Inv(env, s) && AddProgram(env, s, p).Ok?
    ensures var s' := AddProgram(env, s, p).value;
            && Inv(env, s') && p !in Ids(s.programs) && Ids(s'.programs) == Ids(s.programs) + {p}
            && s'.record == Required(env.rentRate, s'.programs) && Total(s') == Total(s)
  {
    var s' := AddProgram(env, s, p).value;
    var e := Entry(env, p);
    assert s'.programs == s.programs + [e];
    forall i | 0 <= i < |s.programs| ensures s.programs[i].programId != p
    {
      assert s.programs[i] in s.programs;
    }
    assert s'.programs[|s.programs|] == e;
    forall q ensures q in Ids(s'.programs) <==> q in Ids(s.programs) || q == p
    {
      if q == p {
        assert e in s'.programs;
      } else if q in Ids(s.programs) {
        var x :| x in s.programs && x.programId == q;
        assert x in s'.programs;
      }
    }
  }

  lemma SwapRemovedMembers(programs: seq<DomainProgram>, i: nat)
    requires i < |programs|
    requires forall a, b :: 0 <= a < b < |programs| ==> programs[a].programId != programs[b].programId
    ensures var r := SwapRemoved(programs, i);
            && |r| == |programs| - 1
            && (forall e :: e in r ==> e in programs)
            && (forall a, b :: 0 <= a < b < |r| ==> r[a].programId != r[b].programId)
            && (forall a :: 0 <= a < |programs| && a != i ==> programs[a] in r)
            && (forall e :: e in r ==> e.programId != programs[i].programId)
  {
    var r, n := SwapRemoved(programs, i), |programs| - 1;
    forall a | 0 <= a < |r| ensures r[a] == if a == i then programs[n] else programs[a] {}
    forall a | 0 <= a < |programs| && a != i ensures programs[a] in r
    {
      assert r[if a == n then i else a] == programs[a];
    }
  }

  lemma RemoveStep(env: Env, s: Registry, p: Pubkey)
    requires Inv(env, s) && RemoveProgram(env, s, p).Ok?
    ensures var s' := RemoveProgram(env, s, p).value;
            && Inv(env, s') && p in Ids(s.programs) && Ids(s'.programs) == Ids(s.programs) - {p}
            && |s'.programs| == |s.programs| - 1
            && s'.record == Required(env.rentRate, s'.programs) && Total(s') == Total(s)
  {
    var s' := RemoveProgram(env, s, p).value;
    var i := Position(s.programs, p);
    SwapRemovedMembers(s.programs, i);
    assert s.programs[i] in s.programs;
    forall q ensures q in Ids(s'.programs) <==> q in Ids(s.programs) && q != p
    {
      if q in Ids(s.programs) && q != p {
        var a :| 0 <= a < |s.programs| && s.programs[a].programId == q;
        assert s.programs[a] in s'.programs;
      }
    }
    forall a | 0 <= a < |s'.programs| ensures s'.programs[a] == Entry(env, s'.programs[a].programId)
    {
      assert s'.programs[a] in s.programs;
    }
  }

  /** Rent for that many entries; an empty record needs none. */
  function RentFor(env: Env, entries: nat): nat
  {
    if entries == 0 then 0 else (128 + 64 * entries) * env.rentRate
  }

  /** The authority can bring the record to `rent`: pay what is missing, or take what is left over without overflow. */
  predicate CanSettle(s: Registry, rent: nat)
  {
    && (s.record < rent ==> rent - s.record <= s.authority)
    && (s.record > rent ==> s.authority + (s.record - rent) <= U64_MAX)
  }

  /** The record holds exactly `rent`, the authority the rest, and everyone else what they had. */
  predicate Settled(before: Registry, after: Registry, rent: nat)
  {
    && after.record == rent && after.authority == before.authority + before.record - rent
    && after.others == before.others
  }

  lemma RentSteps(env: Env, entries: nat)
    ensures RentFor(env, entries + 1) == 64 * entries * env.rentRate + 192 * env.rentRate
    ensures RentFor(env, entries + 1) >= 192 * env.rentRate
  {
    Product(64 * entries, env.rentRate);
    assert (128 + 64 * (entries + 1)) * env.rentRate == 64 * entries * env.rentRate + 192 * env.rentRate;
  }

  /**
   * Exactly when a program can be added: it is not listed with its signer, there is space, and the
   * rent can be settled. Its entry then stands at the end.
   */
  lemma AddsExactly(env: Env, s: Registry, p: Pubkey)
    ensures var rent := RentFor(env, |s.programs| + 1);
            var r, e := AddProgram(env, s, p), DomainProgram(p, env.signerPda(p));
            && (r.Ok? <==> e !in s.programs && 64 * (|s.programs| + 1) <= 10_485_760 && CanSettle(s, rent))
            && (r.Ok? ==> r.value.owned && r.value.programs == s.programs + [e] && Settled(s, r.value, rent))
  {
    RentSteps(env, |s.programs|);
    assert MinimumBalance(env.rentRate, 0) == 128 * env.rentRate;
  }

  /**
   * Exactly when a program can be removed: it is listed and the rent can be settled. The last entry
   * then stands in the place of its first entry, and the others stay.
   */
  lemma RemovesExactly(env: Env, s: Registry, p: Pubkey)
    ensures var listed := exists i :: 0 <= i < |s.programs| && s.programs[i].programId == p;
            var r := RemoveProgram(env, s, p);
            && (r.Ok? <==> listed && CanSettle(s, RentFor(env, |s.programs| - 1)))
            && (r.Ok? ==>
                var n, after := |s.programs| - 1, r.value.programs;
                && |after| == n && r.value.owned == s.owned && Settled(s, r.value, RentFor(env, n))
                && exists i :: 0 <= i <= n && s.programs[i].programId == p
                               && (forall j :: 0 <= j < i ==> s.programs[j].programId != p)
                               && forall j :: 0 <= j < n ==> after[j] == s.programs[if j == i then n else j])
  {
    var i := Position(s.programs, p);
    if i < |s.programs| {
      assert s.programs[i].programId == p;
      var after := SwapRemoved(s.programs, i);
      assert forall j :: 0 <= j < |after| ==> after[j] == s.programs[if j == i then |s.programs| - 1 else j];
    }
  }

  /**
   * Adding fails as "already added" exactly when the set has the program, removing as "not found"
   * exactly when it has not.
   */
  lemma RefusalsAreExact(env: Env, s: Registry, p: Pubkey)
    requires Inv(env, s)
    ensures AddProgram(env, s, p) == Err(ProgramAlreadyAdded) <==> p in Ids(s.programs)
    ensures RemoveProgram(env, s, p) == Err(ProgramNotFound) <==> p !in Ids(s.programs)
  {
    if p in Ids(s.programs) {
      var e :| e in s.programs && e.programId == p;
      assert e == Entry(env, p);
    }
    var i := Position(s.programs, p);
    if i < |s.programs| {
      assert s.programs[i] in s.programs;
    }
  }

  /** Anyone can pay in what they have, and an account left without lamports is emptied. */
  lemma OthersAct(env: Env, s: Registry, amount: nat)
    ensures amount <= s.others ==>
              Execute(env, s, Deposit(amount)) ==
              Registry(s.owned, s.programs, s.record + amount, s.authority, s.others - amount)
    ensures Execute(env, s, Purge) ==
            if s.record == 0 then Registry(false, [], 0, s.authority, s.others) else s
  {
  }

  lemma OneStep(env: Env, s: Registry, step: Step)
    requires Inv(env, s)
    ensures var r, s' := Attempt(env, s, step), Execute(env, s, step);
            && Inv(env, s') && Total(s') == Total(s)
            && Ids(s'.programs) == (if r.Ok? then SetStep(Ids(s.programs), step) else Ids(s.programs))
            && (r.Ok? && (step.Add? || step.Remove?) ==> s'.record == Required(env.rentRate, s'.programs))
  {
    if Attempt(env, s, step).Ok? {
      match step
      case Add(p) => AddStep(env, s, p);
      case Remove(p) => RemoveStep(env, s, p);
      case Deposit(_) =>
      case Purge =>
    }
  }

  /** The set of programs after the successful steps of a run. */
  function SetRun(env: Env, s: Registry, steps: seq<Step>, programs: set<Pubkey>): set<Pubkey>
    decreases |steps|
  {
    if steps == [] then programs
    else SetRun(env, Execute(env, s, steps[0]), steps[1..],
                if Attempt(env, s, steps[0]).Ok? then SetStep(programs, steps[0]) else programs)
  }

  /**
   * Over every run the record lists each program once and holds exactly the set that the
   * successful additions and removals build, and no lamport is created or lost.
   */
  lemma {:induction false} RecordRefinesSet(env: Env, s: Registry, steps: seq<Step>)
    requires Inv(env, s)
    ensures Inv(env, Run(env, s, steps))
    ensures Ids(Run(env, s, steps).programs) == SetRun(env, s, steps, Ids(s.programs))
    ensures Total(Run(env, s, steps)) == Total(s)
    decreases |steps|
  {
    if steps != [] {
      OneStep(env, s, steps[0]);
      RecordRefinesSet(env, Execute(env, s, steps[0]), steps[1..]);
    }
  }
}
