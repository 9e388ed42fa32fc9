/**
 * The expansion of constraints that need wrapped native tokens: optional constraints are
 * inserted around them. Alignments survive any insertion; this module says exactly when
 * everything the greedy matcher accepted survives as well.
 */
module Expansion {
  import opened Common
  import opened Matcher

  /** A constraint, and whether it needs native tokens wrapped around it. */
  datatype Entry<C> = Entry(base: C, wrapped: bool)

  /** The optional constraints put around such a constraint: three before, one after. */
  datatype Wrapping<C> = Wrapping(wrap: C, createAta: C, syncNative: C, closeAccount: C)

  function Plain<C>(entries: seq<Entry<C>>): seq<C>
  {
    if entries == [] then [] else [entries[0].base] + Plain(entries[1..])
  }

  function Group<C>(w: Wrapping<C>, e: Entry<C>): seq<C>
  {
    if e.wrapped then [w.wrap, w.createAta, w.syncNative, e.base, w.closeAccount] else [e.base]
  }

  function Expand<C>(w: Wrapping<C>, entries: seq<Entry<C>>): seq<C>
  {
    if entries == [] then [] else Group(w, entries[0]) + Expand(w, entries[1..])
  }

  lemma ExpandCons<C>(w: Wrapping<C>, e: Entry<C>, entries: seq<Entry<C>>)
    ensures Plain([e] + entries) == [e.base] + Plain(entries)
    ensures Expand(w, [e] + entries) == Group(w, e) + Expand(w, entries)
  {
    assert ([e] + entries)[1..] == entries;
  }

  predicate AllOptional<C, I>(m: Rules<C, I>, w: Wrapping<C>)
  {
    !m.required(w.wrap) && !m.required(w.createAta) && !m.required(w.syncNative) && !m.required(w.closeAccount)
  }

  /** The same expansion with every inserted constraint marked. */
  datatype Mark<C> = Mark(constraint: C, inserted: bool)

  function MarkedGroup<C>(w: Wrapping<C>, e: Entry<C>): seq<Mark<C>>
  {
    if e.wrapped then
      [Mark(w.wrap, true), Mark(w.createAta, true), Mark(w.syncNative, true), Mark(e.base, false),
        Mark(w.closeAccount, true)]
    else [Mark(e.base, false)]
  }

  function Marked<C>(w: Wrapping<C>, entries: seq<Entry<C>>): seq<Mark<C>>
  {
    if entries == [] then [] else MarkedGroup(w, entries[0]) + Marked(w, entries[1..])
  }

  function All<C>(ms: seq<Mark<C>>): seq<C>
  {
    if ms == [] then [] else [ms[0].constraint] + All(ms[1..])
  }

  function Kept<C>(ms: seq<Mark<C>>): seq<C>
  {
    if ms == [] then [] else (if ms[0].inserted then [] else [ms[0].constraint]) + Kept(ms[1..])
  }

  predicate InsertsOptional<C, I>(m: Rules<C, I>, ms: seq<Mark<C>>)
  {
    ms != [] ==> (ms[0].inserted ==> !m.required(ms[0].constraint)) && InsertsOptional(m, ms[1..])
  }

  /** Unfolds `All` and `Kept` by one mark. */
  lemma MarkHead<C>(ms: seq<Mark<C>>)
    requires ms != []
    ensures All(ms) != [] && All(ms)[0] == ms[0].constraint && All(ms)[1..] == All(ms[1..])
    ensures ms[0].inserted ==> Kept(ms) == Kept(ms[1..])
    ensures !ms[0].inserted ==> Kept(ms) != [] && Kept(ms)[0] == ms[0].constraint && Kept(ms)[1..] == Kept(ms[1..])
  {
  }

  lemma MarkCons<C, I>(m: Rules<C, I>, k: Mark<C>, ms: seq<Mark<C>>)
    ensures All([k] + ms) == [k.constraint] + All(ms)
    ensures Kept([k] + ms) == (if k.inserted then [] else [k.constraint]) + Kept(ms)
    ensures InsertsOptional(m, [k] + ms) <==> (k.inserted ==> !m.required(k.constraint)) && InsertsOptional(m, ms)
  {
    assert ([k] + ms)[1..] == ms;
  }

  lemma GroupUnfolds<C>(w: Wrapping<C>, e: Entry<C>, ms: seq<Mark<C>>)
    requires e.wrapped
    ensures MarkedGroup(w, e) + ms ==
            [Mark(w.wrap, true)] + ([Mark(w.createAta, true)] + ([Mark(w.syncNative, true)] +
            ([Mark(e.base, false)] + ([Mark(w.closeAccount, true)] + ms))))
  {
  }

  lemma GroupMarks<C, I>(m: Rules<C, I>, w: Wrapping<C>, e: Entry<C>, ms: seq<Mark<C>>)
    requires AllOptional(m, w)
    ensures All(MarkedGroup(w, e) + ms) == Group(w, e) + All(ms)
    ensures Kept(MarkedGroup(w, e) + ms) == [e.base] + Kept(ms)
    ensures InsertsOptional(m, ms) ==> InsertsOptional(m, MarkedGroup(w, e) + ms)
  {
    if e.wrapped {
      GroupUnfolds(w, e, ms);
      var m3 := [Mark(w.closeAccount, true)] + ms;
      var m2 := [Mark(e.base, false)] + m3;
      var m1 := [Mark(w.syncNative, true)] + m2;
      MarkCons(m, Mark(w.closeAccount, true), ms);
      MarkCons(m, Mark(e.base, false), m3);
      MarkCons(m, Mark(w.syncNative, true), m2);
      MarkCons(m, Mark(w.createAta, true), m1);
      MarkCons(m, Mark(w.wrap, true), [Mark(w.createAta, true)] + m1);
      FiveInARow(w.wrap, w.createAta, w.syncNative, e.base, w.closeAccount, All(ms));
    } else {
      MarkCons(m, Mark(e.base, false), ms);
    }
  }

  lemma FiveInARow<C>(a: C, b: C, c: C, d: C, e: C, cs: seq<C>)
    ensures [a] + ([b] + ([c] + ([d] + ([e] + cs)))) == [a, b, c, d, e] + cs
  {
  }

  lemma {:induction false} MarkedIsExpansion<C, I>(m: Rules<C, I>, w: Wrapping<C>, entries: seq<Entry<C>>)
    requires AllOptional(m, w)
    ensures All(Marked(w, entries)) == Expand(w, entries)
    ensures Kept(Marked(w, entries)) == Plain(entries)
    ensures InsertsOptional(m, Marked(w, entries))
  {
    if entries != [] {
      MarkedIsExpansion(m, w, entries[1..]);
      GroupMarks(m, w, entries[0], Marked(w, entries[1..]));
    }
  }

  lemma {:induction false} InsertionBranches<C, I>(m: Rules<C, I>, ms: seq<Mark<C>>, xs: seq<I>)
    requires InsertsOptional(m, ms) && Branching(m, Kept(ms), xs)
    ensures Branching(m, All(ms), xs)
  {
    if ms != [] {
      MarkHead(ms);
      if ms[0].inserted || (!m.required(ms[0].constraint) && Branching(m, Kept(ms[1..]), xs)) {
        InsertionBranches(m, ms[1..], xs);
      } else {
        InsertionBranches(m, ms[1..], xs[1..]);
      }
    }
  }

  /** Expanding never loses an alignable transaction. */
  lemma ExpansionKeepsAlignments<C, I>(m: Rules<C, I>, w: Wrapping<C>, entries: seq<Entry<C>>, xs: seq<I>)
    requires AllOptional(m, w) && Aligned(m, Plain(entries), xs)
    ensures Aligned(m, Expand(w, entries), xs)
  {
    MarkedIsExpansion(m, w, entries);
    BranchingDecides(m, Plain(entries), xs);
    InsertionBranches(m, Marked(w, entries), xs);
    BranchingDecides(m, Expand(w, entries), xs);
  }

  /** When the expanded list is separated for the transaction, expanding loses nothing greedy accepted before. */
  lemma ExpansionKeepsGreedy<C, I(!new)>(m: Rules<C, I>, w: Wrapping<C>, entries: seq<Entry<C>>, xs: seq<I>)
    requires AllOptional(m, w) && Greedy(m, Plain(entries), xs)
    requires SeparatedFor(m, Expand(w, entries), x => x in xs)
    ensures Greedy(m, Expand(w, entries), xs)
  {
    var f := GreedyIsSound(m, Plain(entries), xs);
    ExpansionKeepsAlignments(m, w, entries, xs);
    GreedyDecidesSeparated(m, Expand(w, entries), xs);
  }

  // ---------- exactly when inserting loses nothing ----------

  predicate HasRequired<C, I>(m: Rules<C, I>, cs: seq<C>)
  {
    cs != [] && (m.required(cs[0]) || HasRequired(m, cs[1..]))
  }

  function AfterRequired<C, I>(m: Rules<C, I>, cs: seq<C>): seq<C>
  {
    if cs == [] then [] else if m.required(cs[0]) then cs[1..] else AfterRequired(m, cs[1..])
  }

  /** How many instructions the optional constraints before the first required one take. */
  function Taken<C, I>(m: Rules<C, I>, cs: seq<C>, xs: seq<I>): (n: nat)
    ensures n <= |xs| && n <= |cs|
  {
    if cs == [] || m.required(cs[0]) then 0
    else if xs != [] && m.accepts(cs[0], xs[0]) then 1 + Taken(m, cs[1..], xs[1..])
    else Taken(m, cs[1..], xs)
  }

  /** A greedy run goes stretch by stretch: the optional constraints, then the required one. */
  lemma {:induction false} GreedySplits<C, I>(m: Rules<C, I>, cs: seq<C>, xs: seq<I>)
    ensures var n := Taken(m, cs, xs);
            Greedy(m, cs, xs) <==>
            if HasRequired(m, cs) then
              n < |xs| && NextRequiredAccepts(m, cs, xs[n]) && Greedy(m, AfterRequired(m, cs), xs[n + 1..])
            else n == |xs|
  {
    if cs != [] && !m.required(cs[0]) {
      if xs != [] && m.accepts(cs[0], xs[0]) {
        GreedySplits(m, cs[1..], xs[1..]);
        var n := Taken(m, cs[1..], xs[1..]);
        assert n < |xs[1..]| ==> xs[1..][n + 1..] == xs[n + 2..];
      } else {
        GreedySplits(m, cs[1..], xs);
      }
    }
  }

  lemma {:induction false} TakenOfPrefix<C, I>(m: Rules<C, I>, cs: seq<C>, xs: seq<I>, k: nat)
    requires k <= |xs|
    ensures Taken(m, cs, xs[..k]) == Min(k, Taken(m, cs, xs))
  {
    if cs != [] && !m.required(cs[0]) {
      if k > 0 && m.accepts(cs[0], xs[0]) {
        assert xs[..k][1..] == xs[1..][..k - 1];
        TakenOfPrefix(m, cs[1..], xs[1..], k - 1);
      } else if k > 0 {
        TakenOfPrefix(m, cs[1..], xs, k);
      }
    }
  }

  /** A run with the insertions is never behind one without, even when it starts `d` ahead. */
  lemma {:induction false} InsertionTakesMore<C, I>(m: Rules<C, I>, ms: seq<Mark<C>>, xs: seq<I>, d: nat)
    requires InsertsOptional(m, ms) && d <= |xs|
    ensures d + Taken(m, All(ms), xs[d..]) >= Taken(m, Kept(ms), xs)
  {
    if ms != [] {
      MarkHead(ms);
      var c := ms[0].constraint;
      var takes := d < |xs| && m.accepts(c, xs[d]);
      if !m.required(c) {
        assert takes ==> xs[d..][1..] == xs[d + 1..];
        if !ms[0].inserted && xs != [] && m.accepts(c, xs[0]) {
          assert d > 0 ==> xs[1..][d - 1..] == xs[d..];
          assert takes ==> xs[1..][d..] == xs[d + 1..];
          InsertionTakesMore(m, ms[1..], xs[1..], if takes then d else d - 1);
        } else {
          InsertionTakesMore(m, ms[1..], xs, if takes then d + 1 else d);
        }
      }
    }
  }

  function MarksAfterRequired<C, I>(m: Rules<C, I>, ms: seq<Mark<C>>): (r: seq<Mark<C>>)
    ensures |r| <= |ms| && (ms != [] ==> |r| < |ms|)
  {
    if ms == [] then [] else if m.required(ms[0].constraint) then ms[1..] else MarksAfterRequired(m, ms[1..])
  }

  /** Inserting leaves the required constraints and what follows each of them in place. */
  lemma {:induction false} InsertionKeepsRequired<C, I>(m: Rules<C, I>, ms: seq<Mark<C>>)
    requires InsertsOptional(m, ms)
    ensures HasRequired(m, All(ms)) <==> HasRequired(m, Kept(ms))
    ensures AfterRequired(m, All(ms)) == All(MarksAfterRequired(m, ms))
    ensures AfterRequired(m, Kept(ms)) == Kept(MarksAfterRequired(m, ms))
    ensures InsertsOptional(m, MarksAfterRequired(m, ms))
  {
    if ms != [] {
      MarkHead(ms);
      if !m.required(ms[0].constraint) {
        InsertionKeepsRequired(m, ms[1..]);
      }
    }
  }

  lemma {:induction false} InsertionKeepsNext<C, I>(m: Rules<C, I>, ms: seq<Mark<C>>, x: I)
    requires InsertsOptional(m, ms)
    ensures NextRequiredAccepts(m, All(ms), x) <==> NextRequiredAccepts(m, Kept(ms), x)
  {
    if ms != [] {
      MarkHead(ms);
      if !m.required(ms[0].constraint) {
        InsertionKeepsNext(m, ms[1..], x);
      }
    }
  }

  /**
   * The insertions steal the last instruction of `u` from the next required constraint: without
   * them the optional constraints take all of `u` but that one, with them they take all of `u`.
   */
  predicate Steals<C, I>(m: Rules<C, I>, ms: seq<Mark<C>>, u: seq<I>)
  {
    && u != [] && NextRequiredAccepts(m, Kept(ms), u[|u| - 1])
    && Taken(m, Kept(ms), u) == |u| - 1
    && Taken(m, All(ms), u) == |u|
  }

  /** In no stretch of optional constraints up to a required one do the insertions steal. */
  ghost predicate Harmless<C, I(!new)>(m: Rules<C, I>, ms: seq<Mark<C>>)
    decreases |ms|
  {
    && (forall u :: !Steals(m, ms, u))
    && (ms != [] ==> Harmless(m, MarksAfterRequired(m, ms)))
  }

  /** The next required constraint gets the same instruction in both runs. */
  lemma {:induction false} SameTaken<C, I(!new)>(m: Rules<C, I>, ms: seq<Mark<C>>, xs: seq<I>)
    requires InsertsOptional(m, ms) && forall u :: !Steals(m, ms, u)
    requires var n := Taken(m, Kept(ms), xs); n < |xs| && NextRequiredAccepts(m, Kept(ms), xs[n])
    ensures Taken(m, All(ms), xs) == Taken(m, Kept(ms), xs)
  {
    var n := Taken(m, Kept(ms), xs);
    InsertionTakesMore(m, ms, xs, 0);
    assert xs[0..] == xs;
    TakenOfPrefix(m, Kept(ms), xs, n + 1);
    TakenOfPrefix(m, All(ms), xs, n + 1);
    assert !Steals(m, ms, xs[..n + 1]);
  }

  lemma {:induction false} HarmlessKeeps<C, I(!new)>(m: Rules<C, I>, ms: seq<Mark<C>>, xs: seq<I>)
    requires InsertsOptional(m, ms) && Harmless(m, ms) && Greedy(m, Kept(ms), xs)
    ensures Greedy(m, All(ms), xs)
    decreases |ms|
  {
    GreedySplits(m, Kept(ms), xs);
    GreedySplits(m, All(ms), xs);
    InsertionKeepsRequired(m, ms);
    var n := Taken(m, Kept(ms), xs);
    if HasRequired(m, Kept(ms)) {
      SameTaken(m, ms, xs);
      InsertionKeepsNext(m, ms, xs[n]);
      HarmlessKeeps(m, MarksAfterRequired(m, ms), xs[n + 1..]);
    } else {
      InsertionTakesMore(m, ms, xs, 0);
      assert xs[0..] == xs;
    }
  }

  function Copies<I>(x: I, n: nat): (s: seq<I>)
    ensures |s| == n && forall i :: 0 <= i < n ==> s[i] == x
  {
    seq(n, _ => x)
  }

  /** Just enough copies of `x` for one to get past the optional constraints. */
  lemma FillOptional<C, I>(m: Rules<C, I>, cs: seq<C>, x: I) returns (n: nat)
    ensures Taken(m, cs, Copies(x, n + 1)) == n
    ensures forall j :: 0 <= j <= n ==> Taken(m, cs, Copies(x, j)) == j
  {
    var many := Copies(x, |cs| + 1);
    n := Taken(m, cs, many);
    forall j | 0 <= j <= n + 1 ensures Taken(m, cs, Copies(x, j)) == Min(j, n)
    {
      assert many[..j] == Copies(x, j);
      TakenOfPrefix(m, cs, many, j);
    }
  }

  lemma TakenOfAppend<C, I>(m: Rules<C, I>, cs: seq<C>, u: seq<I>, ys: seq<I>)
    ensures Taken(m, cs, u) == Min(|u|, Taken(m, cs, u + ys))
  {
    assert (u + ys)[..|u|] == u;
    TakenOfPrefix(m, cs, u + ys, |u|);
  }

  /** Greedy on `u + ys` when the optional constraints leave exactly the last of `u`. */
  lemma GreedyStretch<C, I>(m: Rules<C, I>, cs: seq<C>, u: seq<I>, ys: seq<I>)
    requires u != [] && NextRequiredAccepts(m, cs, u[|u| - 1]) && Taken(m, cs, u) == |u| - 1
    ensures Greedy(m, cs, u + ys) <==> Greedy(m, AfterRequired(m, cs), ys)
  {
    TakenOfAppend(m, cs, u, ys);
    GreedySplits(m, cs, u + ys);
    NextIsRequired(m, cs, u[|u| - 1]);
    assert (u + ys)[|u|..] == ys;
  }

  lemma {:induction false} NextIsRequired<C, I>(m: Rules<C, I>, cs: seq<C>, x: I)
    ensures NextRequiredAccepts(m, cs, x) ==> HasRequired(m, cs)
  {
    if cs != [] && !m.required(cs[0]) {
      NextIsRequired(m, cs[1..], x);
    }
  }

  lemma {:induction false} SatisfiableNext<C, I(!new)>(m: Rules<C, I>, cs: seq<C>) returns (x: I)
    requires Satisfiable(m, cs) && HasRequired(m, cs)
    ensures NextRequiredAccepts(m, cs, x) && Satisfiable(m, AfterRequired(m, cs))
  {
    SatisfiableTail(m, cs);
    if m.required(cs[0]) {
      x :| m.accepts(cs[0], x);
    } else {
      x := SatisfiableNext(m, cs[1..]);
    }
  }

  predicate TooLittle<C, I>(m: Rules<C, I>, ms: seq<Mark<C>>, xs: seq<I>, k: nat)
    requires k <= |xs|
  {
    !Greedy(m, All(ms), xs[k..])
  }

  /** Every proper suffix of `xs` is too little for the list with the insertions. */
  ghost predicate Scarce<C, I>(m: Rules<C, I>, ms: seq<Mark<C>>, xs: seq<I>)
  {
    forall k :: 1 <= k <= |xs| ==> TooLittle(m, ms, xs, k)
  }

  lemma SuffixOfAppend<I>(u: seq<I>, ys: seq<I>, k: nat)
    requires k <= |u| + |ys|
    ensures (u + ys)[k..] == if k <= |u| then u[k..] + ys else ys[k - |u|..]
  {
  }

  lemma SuffixOfSuffix<I>(ys: seq<I>, i: nat, k: nat)
    requires i + k <= |ys|
    ensures ys[i..][k..] == ys[i + k..]
  {
  }

  /** What the optional constraints take whole leaves too little when a scarce suffix follows. */
  lemma ScarceFails<C, I>(m: Rules<C, I>, ms: seq<Mark<C>>, u: seq<I>, ys: seq<I>, i: nat)
    requires InsertsOptional(m, ms) && HasRequired(m, Kept(ms)) && Scarce(m, MarksAfterRequired(m, ms), ys)
    requires i <= |ys| && Taken(m, All(ms), u) == |u|
    ensures !Greedy(m, All(ms), u + ys[i..])
  {
    var zs := u + ys[i..];
    var t := Taken(m, All(ms), zs);
    assert t >= |u| by {
      TakenOfAppend(m, All(ms), u, ys[i..]);
    }
    InsertionKeepsRequired(m, ms);
    if t < |zs| {
      var k := t + 1 - |u|;
      assert zs[t + 1..] == ys[i + k..] by {
        SuffixOfAppend(u, ys[i..], t + 1);
        SuffixOfSuffix(ys, i, k);
      }
      assert TooLittle(m, MarksAfterRequired(m, ms), ys, i + k);
    }
    GreedySplits(m, All(ms), zs);
  }

  lemma CopiesSuffix<I>(x: I, n: nat, k: nat)
    requires k <= n
    ensures Copies(x, n)[k..] == Copies(x, n - k)
  {
  }

  /** Copies the plain optional constraints take are all taken with the insertions, too. */
  lemma CopiesTaken<C, I>(m: Rules<C, I>, ms: seq<Mark<C>>, x: I, j: nat)
    requires InsertsOptional(m, ms) && Taken(m, Kept(ms), Copies(x, j)) == j
    ensures Taken(m, All(ms), Copies(x, j)) == j
  {
    InsertionTakesMore(m, ms, Copies(x, j), 0);
    CopiesSuffix(x, j, 0);
  }

  lemma ScarceCopies<C, I>(m: Rules<C, I>, ms: seq<Mark<C>>, x: I, j: nat, ys: seq<I>)
    requires InsertsOptional(m, ms) && HasRequired(m, Kept(ms)) && Scarce(m, MarksAfterRequired(m, ms), ys)
    requires Taken(m, Kept(ms), Copies(x, j)) == j
    ensures !Greedy(m, All(ms), Copies(x, j) + ys)
  {
    CopiesTaken(m, ms, x, j);
    ScarceFails(m, ms, Copies(x, j), ys, 0);
    assert ys[0..] == ys;
  }

  lemma ScarceTail<C, I>(m: Rules<C, I>, ms: seq<Mark<C>>, ys: seq<I>, i: nat)
    requires InsertsOptional(m, ms) && HasRequired(m, Kept(ms)) && Scarce(m, MarksAfterRequired(m, ms), ys)
    requires i <= |ys|
    ensures !Greedy(m, All(ms), ys[i..])
  {
    ScarceFails(m, ms, [], ys, i);
    assert [] + ys[i..] == ys[i..];
  }

  lemma ScarceStretch<C, I>(m: Rules<C, I>, ms: seq<Mark<C>>, x: I, n: nat, ys: seq<I>, k: nat)
    requires InsertsOptional(m, ms) && HasRequired(m, Kept(ms)) && Scarce(m, MarksAfterRequired(m, ms), ys)
    requires 1 <= k <= n + 1 + |ys|
    requires k <= n + 1 ==> Taken(m, Kept(ms), Copies(x, n + 1 - k)) == n + 1 - k
    ensures !Greedy(m, All(ms), (Copies(x, n + 1) + ys)[k..])
  {
    SuffixOfAppend(Copies(x, n + 1), ys, k);
    if k <= n + 1 {
      CopiesSuffix(x, n + 1, k);
      ScarceCopies(m, ms, x, n + 1 - k, ys);
    } else {
      ScarceTail(m, ms, ys, k - (n + 1));
    }
  }

  /** A transaction the plain list accepts and of which the longer one needs every instruction. */
  lemma {:induction false} ScarceTransaction<C, I(!new)>(m: Rules<C, I>, ms: seq<Mark<C>>) returns (xs: seq<I>)
    requires InsertsOptional(m, ms) && Satisfiable(m, Kept(ms))
    ensures Greedy(m, Kept(ms), xs) && Scarce(m, ms, xs)
    decreases |ms|
  {
    InsertionKeepsRequired(m, ms);
    if HasRequired(m, Kept(ms)) {
      var x := SatisfiableNext(m, Kept(ms));
      var n := FillOptional(m, Kept(ms), x);
      var ys := ScarceTransaction(m, MarksAfterRequired(m, ms));
      xs := Copies(x, n + 1) + ys;
      GreedyStretch(m, Kept(ms), Copies(x, n + 1), ys);
      forall k | 1 <= k <= |xs| ensures TooLittle(m, ms, xs, k)
      {
        ScarceStretch(m, ms, x, n, ys, k);
      }
    } else {
      xs := [];
      GreedySplits(m, Kept(ms), xs);
    }
  }

  lemma StealLoses<C, I(!new)>(m: Rules<C, I>, ms: seq<Mark<C>>, u: seq<I>) returns (xs: seq<I>)
    requires InsertsOptional(m, ms) && Satisfiable(m, Kept(ms)) && Steals(m, ms, u)
    ensures Greedy(m, Kept(ms), xs) && !Greedy(m, All(ms), xs)
  {
    InsertionKeepsRequired(m, ms);
    NextIsRequired(m, Kept(ms), u[|u| - 1]);
    var _ := SatisfiableNext(m, Kept(ms));
    var ys := ScarceTransaction(m, MarksAfterRequired(m, ms));
    xs := u + ys;
    GreedyStretch(m, Kept(ms), u, ys);
    assert ys[0..] == ys;
    ScarceFails(m, ms, u, ys, 0);
  }

  lemma {:induction false} HarmLoses<C, I(!new)>(m: Rules<C, I>, ms: seq<Mark<C>>) returns (xs: seq<I>)
    requires InsertsOptional(m, ms) && Satisfiable(m, Kept(ms)) && !Harmless(m, ms)
    ensures Greedy(m, Kept(ms), xs) && !Greedy(m, All(ms), xs)
    decreases |ms|
  {
    if u :| Steals(m, ms, u) {
      xs := StealLoses(m, ms, u);
    } else {
      var after := MarksAfterRequired(m, ms);
      InsertionKeepsRequired(m, ms);
      if !HasRequired(m, Kept(ms)) {
        NoRequiredLeft(m, ms);
      }
      var x := SatisfiableNext(m, Kept(ms));
      var n := FillOptional(m, Kept(ms), x);
      var ys := HarmLoses(m, after);
      var u := Copies(x, n + 1);
      xs := u + ys;
      SameTaken(m, ms, u);
      InsertionKeepsNext(m, ms, x);
      GreedyStretch(m, Kept(ms), u, ys);
      GreedyStretch(m, All(ms), u, ys);
    }
  }

  lemma {:induction false} NoRequiredLeft<C, I>(m: Rules<C, I>, ms: seq<Mark<C>>)
    requires InsertsOptional(m, ms)
    ensures !HasRequired(m, Kept(ms)) ==> MarksAfterRequired(m, ms) == []
  {
    if ms != [] {
      MarkHead(ms);
      if !m.required(ms[0].constraint) {
        NoRequiredLeft(m, ms[1..]);
      }
    }
  }

  ghost predicate LosesNothing<C, I(!new)>(m: Rules<C, I>, before: seq<C>, after: seq<C>)
  {
    forall xs :: Greedy(m, before, xs) ==> Greedy(m, after, xs)
  }

  /**
   * Exactly when inserting optional constraints costs greedy no transaction: when nothing was
   * accepted before, or when the insertions steal from no required constraint.
   */
  lemma {:induction false} InsertionExact<C, I(!new)>(m: Rules<C, I>, ms: seq<Mark<C>>)
    requires InsertsOptional(m, ms)
    ensures LosesNothing(m, Kept(ms), All(ms)) <==> !Satisfiable(m, Kept(ms)) || Harmless(m, ms)
  {
    if !Satisfiable(m, Kept(ms)) {
      forall xs ensures !Greedy(m, Kept(ms), xs)
      {
        NothingToLose(m, Kept(ms), xs);
      }
    } else if Harmless(m, ms) {
      forall xs | Greedy(m, Kept(ms), xs) ensures Greedy(m, All(ms), xs)
      {
        HarmlessKeeps(m, ms, xs);
      }
    } else {
      var xs := HarmLoses(m, ms);
    }
  }

  lemma NothingToLose<C, I(!new)>(m: Rules<C, I>, cs: seq<C>, xs: seq<I>)
    ensures Greedy(m, cs, xs) ==> Satisfiable(m, cs)
  {
    if Greedy(m, cs, xs) {
      var f := GreedyIsSound(m, cs, xs);
      AlignedIsSatisfiable(m, cs, xs);
    }
  }

  /** The same for the expansion of a configured list. */
  lemma {:induction false} ExpansionExact<C, I(!new)>(m: Rules<C, I>, w: Wrapping<C>, entries: seq<Entry<C>>)
    requires AllOptional(m, w)
    ensures LosesNothing(m, Plain(entries), Expand(w, entries)) <==>
            !Satisfiable(m, Plain(entries)) || Harmless(m, Marked(w, entries))
  {
    MarkedIsExpansion(m, w, entries);
    InsertionExact(m, Marked(w, entries));
  }

  // ---------- the condition for single instructions ----------

  /** Some inserted constraint accepts `x`, and so does the next required constraint after it. */
  predicate Clashes<C, I>(m: Rules<C, I>, ms: seq<Mark<C>>, x: I)
  {
    ms != [] &&
    (|| (ms[0].inserted && m.accepts(ms[0].constraint, x) && NextRequiredAccepts(m, Kept(ms[1..]), x))
     || Clashes(m, ms[1..], x))
  }

  ghost predicate ClashFree<C, I(!new)>(m: Rules<C, I>, ms: seq<Mark<C>>)
  {
    forall x :: !Clashes(m, ms, x)
  }

  lemma StealEarlier<C, I>(m: Rules<C, I>, ms: seq<Mark<C>>, u: seq<I>) returns (v: seq<I>)
    requires ms != [] && InsertsOptional(m, ms) && !m.required(ms[0].constraint) && Steals(m, ms[1..], u)
    ensures Steals(m, ms, v)
  {
    MarkHead(ms);
    v := u;
    if m.accepts(ms[0].constraint, u[0]) {
      if ms[0].inserted {
        TakenFromLater(m, All(ms[1..]), u);
      } else {
        v := [u[0]] + u;
        assert v[1..] == u;
      }
    }
  }

  lemma {:induction false} TakenFromLater<C, I>(m: Rules<C, I>, cs: seq<C>, xs: seq<I>)
    requires xs != []
    ensures 1 + Taken(m, cs, xs[1..]) >= Taken(m, cs, xs)
  {
    if cs != [] && !m.required(cs[0]) {
      if m.accepts(cs[0], xs[0]) {
        if |xs| > 1 && m.accepts(cs[0], xs[1]) {
          TakenFromLater(m, cs[1..], xs[1..]);
        }
      } else if |xs| > 1 && m.accepts(cs[0], xs[1]) {
        TakenFromLater(m, cs[1..], xs);
        TakenFromLater(m, cs[1..], xs[1..]);
      } else {
        TakenFromLater(m, cs[1..], xs);
      }
    }
  }

  lemma HarmlessTail<C, I(!new)>(m: Rules<C, I>, ms: seq<Mark<C>>)
    requires ms != [] && InsertsOptional(m, ms) && Harmless(m, ms)
    ensures Harmless(m, ms[1..])
  {
    if !m.required(ms[0].constraint) {
      forall u ensures !Steals(m, ms[1..], u)
      {
        if Steals(m, ms[1..], u) {
          var v := StealEarlier(m, ms, u);
        }
      }
    }
  }

  /** A clashing insertion steals the last of enough copies of the instruction it clashes on. */
  lemma ClashSteals<C, I>(m: Rules<C, I>, ms: seq<Mark<C>>, x: I) returns (u: seq<I>)
    requires ms != [] && InsertsOptional(m, ms)
    requires ms[0].inserted && m.accepts(ms[0].constraint, x) && NextRequiredAccepts(m, Kept(ms[1..]), x)
    ensures Steals(m, ms, u)
  {
    MarkHead(ms);
    var n := FillOptional(m, Kept(ms), x);
    u := Copies(x, n + 1);
    assert u[1..] == Copies(x, n) && Copies(x, n)[0..] == Copies(x, n);
    InsertionTakesMore(m, ms[1..], Copies(x, n), 0);
  }

  lemma {:induction false} HarmlessDoesNotClash<C, I(!new)>(m: Rules<C, I>, ms: seq<Mark<C>>, x: I)
    requires InsertsOptional(m, ms) && Harmless(m, ms)
    ensures !Clashes(m, ms, x)
  {
    if ms != [] {
      HarmlessTail(m, ms);
      HarmlessDoesNotClash(m, ms[1..], x);
      if ms[0].inserted && m.accepts(ms[0].constraint, x) && NextRequiredAccepts(m, Kept(ms[1..]), x) {
        var u := ClashSteals(m, ms, x);
      }
    }
  }

  /** Every clash of an inserted constraint with the next required one loses a transaction, whatever the list. */
  lemma InsertedClashLoses<C, I(!new)>(m: Rules<C, I>, ms: seq<Mark<C>>, x: I) returns (xs: seq<I>)
    requires InsertsOptional(m, ms) && Satisfiable(m, Kept(ms)) && Clashes(m, ms, x)
    ensures Greedy(m, Kept(ms), xs) && !Greedy(m, All(ms), xs)
  {
    if Harmless(m, ms) {
      HarmlessDoesNotClash(m, ms, x);
    }
    xs := HarmLoses(m, ms);
  }

  lemma SeparatedCons<C, I(!new)>(m: Rules<C, I>, cs: seq<C>)
    requires cs != []
    ensures Separated(m, cs) <==>
            && Separated(m, cs[1..])
            && (!m.required(cs[0]) ==> forall x :: m.accepts(cs[0], x) ==> !NextRequiredAccepts(m, cs[1..], x))
  {
    if Separated(m, cs) {
      assert cs[0 + 1..] == cs[1..];
      forall j, x | 0 <= j < |cs[1..]| && !m.required(cs[1..][j]) && m.accepts(cs[1..][j], x)
        ensures !NextRequiredAccepts(m, cs[1..][j + 1..], x)
      {
        assert cs[1..][j] == cs[j + 1] && cs[1..][j + 1..] == cs[(j + 1) + 1..];
      }
    } else {
      var j, x :| 0 <= j < |cs| && !m.required(cs[j]) && m.accepts(cs[j], x) && NextRequiredAccepts(m, cs[j + 1..], x);
      if j > 0 {
        assert cs[1..][j - 1] == cs[j] && cs[1..][(j - 1) + 1..] == cs[j + 1..];
      }
    }
  }

  lemma {:induction false} SeparatedLeavesLast<C, I(!new)>(m: Rules<C, I>, cs: seq<C>, u: seq<I>)
    requires Separated(m, cs) && u != [] && NextRequiredAccepts(m, cs, u[|u| - 1])
    ensures Taken(m, cs, u) < |u|
  {
    if !m.required(cs[0]) {
      SeparatedCons(m, cs);
      if m.accepts(cs[0], u[0]) {
        if |u| > 1 {
          SeparatedLeavesLast(m, cs[1..], u[1..]);
        }
      } else {
        SeparatedLeavesLast(m, cs[1..], u);
      }
    }
  }

  lemma {:induction false} SeparatedAfter<C, I(!new)>(m: Rules<C, I>, cs: seq<C>)
    requires Separated(m, cs)
    ensures Separated(m, AfterRequired(m, cs))
  {
    if cs != [] {
      SeparatedCons(m, cs);
      if !m.required(cs[0]) {
        SeparatedAfter(m, cs[1..]);
      }
    }
  }

  lemma {:induction false} SeparatedIsHarmless<C, I(!new)>(m: Rules<C, I>, ms: seq<Mark<C>>)
    requires InsertsOptional(m, ms) && Separated(m, All(ms))
    ensures Harmless(m, ms)
    decreases |ms|
  {
    forall u ensures !Steals(m, ms, u)
    {
      if Steals(m, ms, u) {
        InsertionKeepsNext(m, ms, u[|u| - 1]);
        SeparatedLeavesLast(m, All(ms), u);
      }
    }
    if ms != [] {
      InsertionKeepsRequired(m, ms);
      SeparatedAfter(m, All(ms));
      SeparatedIsHarmless(m, MarksAfterRequired(m, ms));
    }
  }

  lemma InsertionSeparatesHead<C, I(!new)>(m: Rules<C, I>, ms: seq<Mark<C>>)
    requires ms != [] && InsertsOptional(m, ms) && Separated(m, Kept(ms))
    ensures Separated(m, Kept(ms[1..]))
    ensures Separated(m, All(ms)) <==>
            && Separated(m, All(ms[1..]))
            && (ms[0].inserted ==>
                forall x :: m.accepts(ms[0].constraint, x) ==> !NextRequiredAccepts(m, Kept(ms[1..]), x))
  {
    MarkHead(ms);
    SeparatedCons(m, All(ms));
    if !ms[0].inserted {
      SeparatedCons(m, Kept(ms));
    }
    forall x ensures NextRequiredAccepts(m, All(ms[1..]), x) <==> NextRequiredAccepts(m, Kept(ms[1..]), x)
    {
      InsertionKeepsNext(m, ms[1..], x);
    }
  }

  /** Inserting into a separated list keeps it separated exactly when no insertion clashes. */
  lemma {:induction false} InsertionSeparates<C, I(!new)>(m: Rules<C, I>, ms: seq<Mark<C>>)
    requires InsertsOptional(m, ms) && Separated(m, Kept(ms))
    ensures Separated(m, All(ms)) <==> ClashFree(m, ms)
  {
    if ms != [] {
      InsertionSeparatesHead(m, ms);
      InsertionSeparates(m, ms[1..]);
      if ClashFree(m, ms) {
        forall x ensures !Clashes(m, ms[1..], x)
        {
          assert !Clashes(m, ms, x);
        }
        forall x ensures ms[0].inserted && m.accepts(ms[0].constraint, x) ==> !NextRequiredAccepts(m, Kept(ms[1..]), x)
        {
          assert !Clashes(m, ms, x);
        }
      }
      if Separated(m, All(ms)) {
        forall x ensures !Clashes(m, ms, x)
        {
          assert !Clashes(m, ms[1..], x);
        }
      }
    }
  }

  /** For a list that was separated, single instructions decide: greedy loses nothing exactly without clashes. */
  lemma SeparatedInsertionExact<C, I(!new)>(m: Rules<C, I>, ms: seq<Mark<C>>)
    requires InsertsOptional(m, ms) && Separated(m, Kept(ms))
    ensures LosesNothing(m, Kept(ms), All(ms)) <==> !Satisfiable(m, Kept(ms)) || ClashFree(m, ms)
    ensures LosesNothing(m, Kept(ms), All(ms)) <==> !Satisfiable(m, Kept(ms)) || Separated(m, All(ms))
  {
    InsertionExact(m, ms);
    InsertionSeparates(m, ms);
    if Harmless(m, ms) {
      forall x ensures !Clashes(m, ms, x)
      {
        HarmlessDoesNotClash(m, ms, x);
      }
    }
    if Separated(m, All(ms)) {
      SeparatedIsHarmless(m, ms);
    }
  }

  // ---------- the condition for an expanded list ----------

  /** At entry `i` a wrapping constraint accepts `x`, and so does the next required configured constraint. */
  predicate WrapClash<C, I>(m: Rules<C, I>, w: Wrapping<C>, entries: seq<Entry<C>>, i: nat, x: I)
    requires i < |entries|
  {
    entries[i].wrapped &&
    (|| ((m.accepts(w.wrap, x) || m.accepts(w.createAta, x) || m.accepts(w.syncNative, x))
         && NextRequiredAccepts(m, Plain(entries[i..]), x))
     || (m.accepts(w.closeAccount, x) && NextRequiredAccepts(m, Plain(entries[i + 1..]), x)))
  }

  lemma ClashCons<C, I>(m: Rules<C, I>, c: C, ms: seq<Mark<C>>, x: I)
    ensures Kept([Mark(c, true)] + ms) == Kept(ms)
    ensures Clashes(m, [Mark(c, true)] + ms, x) <==>
            (m.accepts(c, x) && NextRequiredAccepts(m, Kept(ms), x)) || Clashes(m, ms, x)
  {
    assert ([Mark(c, true)] + ms)[1..] == ms;
  }

  lemma ThreeClash<C, I>(m: Rules<C, I>, w: Wrapping<C>, ms: seq<Mark<C>>, x: I)
    ensures Clashes(m, [Mark(w.wrap, true)] + ([Mark(w.createAta, true)] + ([Mark(w.syncNative, true)] + ms)), x) <==>
            || ((m.accepts(w.wrap, x) || m.accepts(w.createAta, x) || m.accepts(w.syncNative, x))
                && NextRequiredAccepts(m, Kept(ms), x))
            || Clashes(m, ms, x)
  {
    var m1 := [Mark(w.syncNative, true)] + ms;
    ClashCons(m, w.syncNative, ms, x);
    ClashCons(m, w.createAta, m1, x);
    ClashCons(m, w.wrap, [Mark(w.createAta, true)] + m1, x);
  }

  lemma BaseClash<C, I>(m: Rules<C, I>, c: C, ms: seq<Mark<C>>, x: I)
    ensures Kept([Mark(c, false)] + ms) == [c] + Kept(ms)
    ensures Clashes(m, [Mark(c, false)] + ms, x) <==> Clashes(m, ms, x)
  {
    assert ([Mark(c, false)] + ms)[1..] == ms;
  }

  lemma GroupClashes<C, I>(m: Rules<C, I>, w: Wrapping<C>, entries: seq<Entry<C>>, x: I)
    requires AllOptional(m, w) && entries != []
    ensures Clashes(m, Marked(w, entries), x) <==>
            WrapClash(m, w, entries, 0, x) || Clashes(m, Marked(w, entries[1..]), x)
  {
    var base, rest := entries[0].base, Marked(w, entries[1..]);
    assert Kept(rest) == Plain(entries[1..]) by {
      MarkedIsExpansion(m, w, entries[1..]);
    }
    assert entries[0..] == entries;
    if entries[0].wrapped {
      GroupUnfolds(w, entries[0], rest);
      var tail := [Mark(w.closeAccount, true)] + rest;
      ClashCons(m, w.closeAccount, rest, x);
      BaseClash(m, base, tail, x);
      ThreeClash(m, w, [Mark(base, false)] + tail, x);
    } else {
      BaseClash(m, base, rest, x);
    }
  }

  lemma {:induction false} ExpansionClashes<C, I>(m: Rules<C, I>, w: Wrapping<C>, entries: seq<Entry<C>>, x: I)
    requires AllOptional(m, w)
    ensures Clashes(m, Marked(w, entries), x) <==> exists i :: 0 <= i < |entries| && WrapClash(m, w, entries, i, x)
  {
    if entries != [] {
      GroupClashes(m, w, entries, x);
      ExpansionClashes(m, w, entries[1..], x);
      forall i | 0 < i < |entries| ensures WrapClash(m, w, entries, i, x) <==> WrapClash(m, w, entries[1..], i - 1, x)
      {
        assert entries[1..][i - 1..] == entries[i..] && entries[1..][i..] == entries[i + 1..];
      }
      if Clashes(m, Marked(w, entries[1..]), x) {
        var i :| 0 <= i < |entries[1..]| && WrapClash(m, w, entries[1..], i, x);
        assert WrapClash(m, w, entries, i + 1, x);
      }
    }
  }

  ghost predicate WrapClashFree<C, I(!new)>(m: Rules<C, I>, w: Wrapping<C>, entries: seq<Entry<C>>)
  {
    forall i, x :: 0 <= i < |entries| ==> !WrapClash(m, w, entries, i, x)
  }

  lemma {:induction false} ExpansionClashFree<C, I(!new)>(m: Rules<C, I>, w: Wrapping<C>, entries: seq<Entry<C>>)
    requires AllOptional(m, w)
    ensures ClashFree(m, Marked(w, entries)) <==> WrapClashFree(m, w, entries)
  {
    if ClashFree(m, Marked(w, entries)) {
      forall i, x | 0 <= i < |entries| ensures !WrapClash(m, w, entries, i, x)
      {
        assert !Clashes(m, Marked(w, entries), x);
        ExpansionClashes(m, w, entries, x);
      }
    }
    if WrapClashFree(m, w, entries) {
      forall x ensures !Clashes(m, Marked(w, entries), x)
      {
        ExpansionClashes(m, w, entries, x);
      }
    }
  }

  /** Expanding a separated list loses nothing exactly when no wrapping constraint clashes. */
  lemma {:induction false} SeparatedExpansionExact<C, I(!new)>(m: Rules<C, I>, w: Wrapping<C>, entries: seq<Entry<C>>)
    requires AllOptional(m, w) && Separated(m, Plain(entries))
    ensures LosesNothing(m, Plain(entries), Expand(w, entries)) <==>
            !Satisfiable(m, Plain(entries)) || WrapClashFree(m, w, entries)
    ensures LosesNothing(m, Plain(entries), Expand(w, entries)) <==>
            !Satisfiable(m, Plain(entries)) || Separated(m, Expand(w, entries))
  {
    MarkedIsExpansion(m, w, entries);
    SeparatedInsertionExact(m, Marked(w, entries));
    ExpansionClashFree(m, w, entries);
  }

  /** A clashing wrapping constraint loses a transaction, separated list or not. */
  lemma WrapClashLoses<C, I(!new)>(m: Rules<C, I>, w: Wrapping<C>, entries: seq<Entry<C>>, i: nat, x: I)
    returns (xs: seq<I>)
    requires AllOptional(m, w) && Satisfiable(m, Plain(entries))
    requires i < |entries| && WrapClash(m, w, entries, i, x)
    ensures Greedy(m, Plain(entries), xs) && !Greedy(m, Expand(w, entries), xs)
  {
    MarkedIsExpansion(m, w, entries);
    ExpansionClashes(m, w, entries, x);
    xs := InsertedClashLoses(m, Marked(w, entries), x);
  }
}
