/**
 * The paymaster's greedy matching of a transaction's instructions against an ordered list
 * of required and optional constraints, its declarative meaning (order-preserving
 * alignments), and exactly when the two coincide.
 */
module Matcher {
  import opened Common

  /** Which constraint accepts which instruction, and which constraints are required. */
  datatype Rules<!C, !I> = Rules(accepts: (C, I) -> bool, required: C -> bool)

  // ---------- the greedy algorithm ----------

  predicate Greedy<C, I>(m: Rules<C, I>, cs: seq<C>, xs: seq<I>)
  {
    if cs == [] then xs == []
    else if xs != [] && m.accepts(cs[0], xs[0]) then Greedy(m, cs[1..], xs[1..])
    else !m.required(cs[0]) && Greedy(m, cs[1..], xs)
  }

  datatype MatchError =
    | ConstraintFailed(constraint: nat, instruction: nat)
    | RanOutOfInstructions(constraint: nat)
    | RanOutOfConstraints(instruction: nat)

  /** How many instructions a greedy run over `cs` matches before it ends, or None where a required one fails. */
  function Progress<C, I>(m: Rules<C, I>, cs: seq<C>, xs: seq<I>): (r: Option<nat>)
    ensures r.Some? ==> r.value <= |xs|
  {
    if cs == [] then Some(0)
    else if xs != [] && m.accepts(cs[0], xs[0]) then
      var r := Progress(m, cs[1..], xs[1..]);
      if r.Some? then Some(1 + r.value) else None
    else if m.required(cs[0]) then None
    else Progress(m, cs[1..], xs)
  }

  lemma {:induction false} ProgressStep<C, I>(m: Rules<C, I>, cs: seq<C>, c: C, xs: seq<I>)
    requires Progress(m, cs, xs).Some?
    ensures var i := Progress(m, cs, xs).value;
            Progress(m, cs + [c], xs) ==
            if i < |xs| && m.accepts(c, xs[i]) then Some(i + 1) else if m.required(c) then None else Some(i)
  {
    if cs != [] {
      assert (cs + [c])[1..] == cs[1..] + [c];
      ProgressStep(m, cs[1..], c, if xs != [] && m.accepts(cs[0], xs[0]) then xs[1..] else xs);
    }
  }

  /** Greedy accepts exactly when its run matches every instruction and no required constraint fails. */
  lemma {:induction false} GreedyIsFullProgress<C, I>(m: Rules<C, I>, cs: seq<C>, xs: seq<I>)
    ensures Greedy(m, cs, xs) <==> Progress(m, cs, xs) == Some(|xs|)
  {
    if cs != [] {
      GreedyIsFullProgress(m, cs[1..], if xs != [] && m.accepts(cs[0], xs[0]) then xs[1..] else xs);
    }
  }

  /** The run settles everything before the constraint and instruction that the error names, and stops there. */
  predicate Explains<C, I>(m: Rules<C, I>, cs: seq<C>, xs: seq<I>, error: MatchError)
  {
    match error
    case ConstraintFailed(j, i) =>
      && j < |cs| && i < |xs| && m.required(cs[j]) && !m.accepts(cs[j], xs[i])
      && Progress(m, cs[..j], xs) == Some(i)
    case RanOutOfInstructions(j) =>
      j < |cs| && m.required(cs[j]) && Progress(m, cs[..j], xs) == Some(|xs|)
    case RanOutOfConstraints(i) =>
      i < |xs| && Progress(m, cs, xs) == Some(i)
  }

  /**
   * The loop over constraints with a peekable instruction iterator. Every error names the
   * constraint and instruction the run had reached, with all earlier ones settled.
   */
  method ValidateInstructionConstraints<C, I>(m: Rules<C, I>, cs: seq<C>, xs: seq<I>)
    returns (r: Result<(), MatchError>)
    ensures r.Ok? <==> Greedy(m, cs, xs)
    ensures r.Err? ==> Explains(m, cs, xs, r.error)
  {
    var i: nat := 0;
    for j := 0 to |cs|
      invariant i <= |xs| && Progress(m, cs[..j], xs) == Some(i)
      invariant Greedy(m, cs, xs) <==> Greedy(m, cs[j..], xs[i..])
    {
      ProgressStep(m, cs[..j], cs[j], xs);
      assert cs[..j] + [cs[j]] == cs[..j + 1];
      assert cs[j..][1..] == cs[j + 1..];
      if i < |xs| && m.accepts(cs[j], xs[i]) {
        assert xs[i..][1..] == xs[i + 1..];
        i := i + 1;
      } else if m.required(cs[j]) {
        return Err(if i < |xs| then ConstraintFailed(j, i) else RanOutOfInstructions(j));
      }
    }
    assert cs[..|cs|] == cs;
    r := if i < |xs| then Err(RanOutOfConstraints(i)) else Ok(());
  }

  // ---------- the declarative meaning ----------

  /** `f[i]` is the constraint that instruction `i` is matched with. */
  ghost predicate IsAlignment<C, I>(m: Rules<C, I>, cs: seq<C>, xs: seq<I>, f: seq<nat>)
  {
    && |f| == |xs|
    && (forall i :: 0 <= i < |f| ==> f[i] < |cs| && m.accepts(cs[f[i]], xs[i]))
    && (forall i, j :: 0 <= i < j < |f| ==> f[i] < f[j])
    && (forall j :: 0 <= j < |cs| && j !in f ==> !m.required(cs[j]))
  }

  ghost predicate Aligned<C, I>(m: Rules<C, I>, cs: seq<C>, xs: seq<I>)
  {
    exists f :: IsAlignment(m, cs, xs, f)
  }

  /** The decision procedure that branches where the greedy one commits. */
  predicate Branching<C, I>(m: Rules<C, I>, cs: seq<C>, xs: seq<I>)
  {
    if cs == [] then xs == []
    else
      || (xs != [] && m.accepts(cs[0], xs[0]) && Branching(m, cs[1..], xs[1..]))
      || (!m.required(cs[0]) && Branching(m, cs[1..], xs))
  }

  function Shift(f: seq<nat>, d: int): (g: seq<nat>)
    requires forall i :: 0 <= i < |f| ==> f[i] + d >= 0
    ensures |g| == |f| && forall i :: 0 <= i < |f| ==> g[i] == f[i] + d
  {
    seq(|f|, i requires 0 <= i < |f| => f[i] + d)
  }

  /** `f` is `g` moved up by one, after `d` matches of the first constraint. */
  predicate Extends(f: seq<nat>, g: seq<nat>, d: nat)
  {
    d <= 1 && |f| == |g| + d && (d == 1 ==> f[0] == 0) && forall i :: 0 <= i < |g| ==> f[i + d] == g[i] + 1
  }

  lemma ExtendsAccepts<C, I>(m: Rules<C, I>, cs: seq<C>, xs: seq<I>, g: seq<nat>, d: nat, f: seq<nat>, i: nat)
    requires cs != [] && d <= |xs| && Extends(f, g, d)
    requires d == 1 ==> m.accepts(cs[0], xs[0])
    requires IsAlignment(m, cs[1..], xs[d..], g)
    requires i < |f|
    ensures f[i] < |cs| && m.accepts(cs[f[i]], xs[i])
  {
    if i >= d {
      var j := i - d;
      assert m.accepts(cs[1..][g[j]], xs[d..][j]);
      assert f[j + d] == g[j] + 1;
    }
  }

  lemma ExtendsOrdered(g: seq<nat>, d: nat, f: seq<nat>, i: nat, j: nat)
    requires Extends(f, g, d) && i < j < |f|
    requires forall a, b :: 0 <= a < b < |g| ==> g[a] < g[b]
    ensures f[i] < f[j]
  {
    var b := j - d;
    assert f[b + d] == g[b] + 1;
    if i >= d {
      var a := i - d;
      assert f[a + d] == g[a] + 1 && g[a] < g[b];
    }
  }

  lemma ExtendsCovers(g: seq<nat>, d: nat, f: seq<nat>, j: nat)
    requires Extends(f, g, d) && j !in f
    ensures j == 0 ==> d == 0
    ensures j > 0 ==> j - 1 !in g
  {
    assert d == 1 ==> f[0] == 0 && f[0] in f;
    if j > 0 {
      Unshifted(g, f, d, j);
    }
  }

  lemma AlignMore<C, I>(m: Rules<C, I>, cs: seq<C>, xs: seq<I>, g: seq<nat>, d: nat, f: seq<nat>)
    requires cs != [] && d <= |xs| && Extends(f, g, d)
    requires d == 1 ==> m.accepts(cs[0], xs[0])
    requires d == 0 ==> !m.required(cs[0])
    requires IsAlignment(m, cs[1..], xs[d..], g)
    ensures IsAlignment(m, cs, xs, f)
  {
    forall i | 0 <= i < |f| ensures f[i] < |cs| && m.accepts(cs[f[i]], xs[i])
    {
      ExtendsAccepts(m, cs, xs, g, d, f, i);
    }
    forall i, j | 0 <= i < j < |f| ensures f[i] < f[j]
    {
      ExtendsOrdered(g, d, f, i, j);
    }
    forall j | 0 <= j < |cs| && j !in f ensures !m.required(cs[j])
    {
      ExtendsCovers(g, d, f, j);
      if j > 0 {
        assert cs[j] == cs[1..][j - 1];
      }
    }
  }

  lemma Unshifted(g: seq<nat>, f: seq<nat>, d: nat, j: nat)
    requires |f| == |g| + d && forall i :: 0 <= i < |g| ==> f[i + d] == g[i] + 1
    requires j > 0
    ensures j - 1 in g ==> j in f
  {
    if j - 1 in g {
      var i :| 0 <= i < |g| && g[i] == j - 1;
      assert f[i + d] == j;
    }
  }

  lemma {:induction false} BranchingAligns<C, I>(m: Rules<C, I>, cs: seq<C>, xs: seq<I>) returns (f: seq<nat>)
    requires Branching(m, cs, xs)
    ensures IsAlignment(m, cs, xs, f)
  {
    if cs == [] {
      f := [];
    } else if xs != [] && m.accepts(cs[0], xs[0]) && Branching(m, cs[1..], xs[1..]) {
      var g := BranchingAligns(m, cs[1..], xs[1..]);
      f := [0] + Shift(g, 1);
      AlignMore(m, cs, xs, g, 1, f);
    } else {
      var g := BranchingAligns(m, cs[1..], xs);
      f := Shift(g, 1);
      assert xs[0..] == xs;
      AlignMore(m, cs, xs, g, 0, f);
    }
  }

  lemma AlignmentHead<C, I>(m: Rules<C, I>, cs: seq<C>, xs: seq<I>, f: seq<nat>, d: nat)
    requires cs != [] && IsAlignment(m, cs, xs, f)
    requires d == if f != [] && f[0] == 0 then 1 else 0
    ensures forall i :: d <= i < |f| ==> f[i] > 0
    ensures d == 0 ==> !m.required(cs[0])
  {
    assert forall i :: 0 < i < |f| ==> f[0] < f[i];
  }

  lemma Reshifted(g: seq<nat>, f: seq<nat>, d: nat, j: nat)
    requires |f| == |g| + d && forall i :: 0 <= i < |g| ==> f[i + d] == g[i] + 1
    requires forall i :: 0 <= i < d ==> f[i] == 0
    ensures j + 1 in f ==> j in g
  {
    if j + 1 in f {
      var i :| 0 <= i < |f| && f[i] == j + 1;
      assert g[i - d] == j;
    }
  }

  /** Dropping the first constraint of an alignment, with its instruction if it has one. */
  lemma AlignmentTail<C, I>(m: Rules<C, I>, cs: seq<C>, xs: seq<I>, f: seq<nat>, d: nat, g: seq<nat>)
    requires cs != [] && IsAlignment(m, cs, xs, f)
    requires d <= |f| && (forall i :: 0 <= i < d ==> f[i] == 0)
    requires |g| == |f| - d && forall i :: 0 <= i < |g| ==> g[i] + 1 == f[i + d]
    ensures IsAlignment(m, cs[1..], xs[d..], g)
  {
    forall i | 0 <= i < |g| ensures g[i] < |cs[1..]| && m.accepts(cs[1..][g[i]], xs[d..][i])
    {
      assert m.accepts(cs[f[i + d]], xs[i + d]);
    }
    forall i, j | 0 <= i < j < |g| ensures g[i] < g[j]
    {
      assert f[i + d] < f[j + d];
    }
    forall j | 0 <= j < |cs[1..]| && j !in g ensures !m.required(cs[1..][j])
    {
      assert cs[1..][j] == cs[j + 1];
      Reshifted(g, f, d, j);
    }
  }

  lemma {:induction false} AlignedBranches<C, I>(m: Rules<C, I>, cs: seq<C>, xs: seq<I>, f: seq<nat>)
    requires IsAlignment(m, cs, xs, f)
    ensures Branching(m, cs, xs)
    decreases |cs|
  {
    if cs != [] {
      var d := if f != [] && f[0] == 0 then 1 else 0;
      AlignmentHead(m, cs, xs, f, d);
      var g := Shift(f[d..], -1);
      AlignmentTail(m, cs, xs, f, d, g);
      AlignedBranches(m, cs[1..], xs[d..], g);
      assert xs[0..] == xs;
    }
  }

  /** The branching procedure decides alignability. */
  lemma BranchingDecides<C, I>(m: Rules<C, I>, cs: seq<C>, xs: seq<I>)
    ensures Branching(m, cs, xs) <==> Aligned(m, cs, xs)
  {
    if Branching(m, cs, xs) {
      var f := BranchingAligns(m, cs, xs);
    }
    if Aligned(m, cs, xs) {
      var f :| IsAlignment(m, cs, xs, f);
      AlignedBranches(m, cs, xs, f);
    }
  }

  // ---------- soundness ----------

  lemma {:induction false} GreedyBranches<C, I>(m: Rules<C, I>, cs: seq<C>, xs: seq<I>)
    requires Greedy(m, cs, xs)
    ensures Branching(m, cs, xs)
  {
    if cs != [] {
      if xs != [] && m.accepts(cs[0], xs[0]) {
        GreedyBranches(m, cs[1..], xs[1..]);
      } else {
        GreedyBranches(m, cs[1..], xs);
      }
    }
  }

  /**
   * Acceptance always comes with an order-preserving injection of the instructions into
   * constraints that accept them, leaving only optional constraints unmatched.
   */
  lemma GreedyIsSound<C, I>(m: Rules<C, I>, cs: seq<C>, xs: seq<I>) returns (f: seq<nat>)
    requires Greedy(m, cs, xs)
    ensures IsAlignment(m, cs, xs, f)
  {
    GreedyBranches(m, cs, xs);
    f := BranchingAligns(m, cs, xs);
  }

  // ---------- completeness ----------

  /** The first required constraint of `cs`, if there is one, accepts `x`. */
  predicate NextRequiredAccepts<C, I>(m: Rules<C, I>, cs: seq<C>, x: I)
  {
    cs != [] && if m.required(cs[0]) then m.accepts(cs[0], x) else NextRequiredAccepts(m, cs[1..], x)
  }

  /** Among the instructions `p` allows, none is accepted by an optional constraint and by the next required one. */
  ghost predicate SeparatedFor<C, I(!new)>(m: Rules<C, I>, cs: seq<C>, p: I -> bool)
  {
    forall j, x :: 0 <= j < |cs| && !m.required(cs[j]) && p(x) && m.accepts(cs[j], x) ==>
      !NextRequiredAccepts(m, cs[j + 1..], x)
  }

  ghost predicate Separated<C, I(!new)>(m: Rules<C, I>, cs: seq<C>)
  {
    forall j, x :: 0 <= j < |cs| && !m.required(cs[j]) && m.accepts(cs[j], x) ==>
      !NextRequiredAccepts(m, cs[j + 1..], x)
  }

  lemma SeparatedTail<C, I(!new)>(m: Rules<C, I>, cs: seq<C>, p: I -> bool)
    requires cs != [] && SeparatedFor(m, cs, p)
    ensures SeparatedFor(m, cs[1..], p)
  {
    forall j, x | 0 <= j < |cs[1..]| && !m.required(cs[1..][j]) && p(x) && m.accepts(cs[1..][j], x)
      ensures !NextRequiredAccepts(m, cs[1..][j + 1..], x)
    {
      assert cs[1..][j] == cs[j + 1] && cs[1..][j + 1..] == cs[(j + 1) + 1..];
    }
  }

  /** An instruction the next required constraint refuses can be spent on an earlier optional one. */
  lemma {:induction false} FirstIsSpare<C, I>(m: Rules<C, I>, cs: seq<C>, xs: seq<I>)
    requires xs != [] && Branching(m, cs, xs) && !NextRequiredAccepts(m, cs, xs[0])
    ensures Branching(m, cs, xs[1..])
  {
    if !m.required(cs[0]) && Branching(m, cs[1..], xs) {
      FirstIsSpare(m, cs[1..], xs);
    }
  }

  lemma {:induction false} SeparatedIsEnough<C, I(!new)>(m: Rules<C, I>, cs: seq<C>, xs: seq<I>, p: I -> bool)
    requires SeparatedFor(m, cs, p)
    requires forall i :: 0 <= i < |xs| ==> p(xs[i])
    requires Branching(m, cs, xs)
    ensures Greedy(m, cs, xs)
  {
    if cs != [] {
      SeparatedTail(m, cs, p);
      if xs != [] && m.accepts(cs[0], xs[0]) {
        if !Branching(m, cs[1..], xs[1..]) {
          assert !NextRequiredAccepts(m, cs[0 + 1..], xs[0]);
          FirstIsSpare(m, cs[1..], xs);
        }
        SeparatedIsEnough(m, cs[1..], xs[1..], p);
      } else {
        SeparatedIsEnough(m, cs[1..], xs, p);
      }
    }
  }

  /** For one transaction: if its own instructions keep the condition, greedy decides alignability. */
  lemma GreedyDecidesSeparated<C, I(!new)>(m: Rules<C, I>, cs: seq<C>, xs: seq<I>)
    requires SeparatedFor(m, cs, x => x in xs)
    ensures Greedy(m, cs, xs) <==> Aligned(m, cs, xs)
  {
    BranchingDecides(m, cs, xs);
    if Greedy(m, cs, xs) {
      GreedyBranches(m, cs, xs);
    } else if Branching(m, cs, xs) {
      SeparatedIsEnough(m, cs, xs, x => x in xs);
    }
  }

  ghost predicate Satisfiable<C, I(!new)>(m: Rules<C, I>, cs: seq<C>)
  {
    forall j :: 0 <= j < |cs| && m.required(cs[j]) ==> exists x :: m.accepts(cs[j], x)
  }

  ghost predicate Complete<C, I(!new)>(m: Rules<C, I>, cs: seq<C>)
  {
    forall xs :: Aligned(m, cs, xs) ==> Greedy(m, cs, xs)
  }

  function RequiredCount<C, I>(m: Rules<C, I>, cs: seq<C>): nat
  {
    if cs == [] then 0 else (if m.required(cs[0]) then 1 else 0) + RequiredCount(m, cs[1..])
  }

  lemma {:induction false} GreedyNeedsOneEach<C, I>(m: Rules<C, I>, cs: seq<C>, xs: seq<I>)
    requires Greedy(m, cs, xs)
    ensures |xs| >= RequiredCount(m, cs)
  {
    if cs != [] {
      if xs != [] && m.accepts(cs[0], xs[0]) {
        GreedyNeedsOneEach(m, cs[1..], xs[1..]);
      } else {
        GreedyNeedsOneEach(m, cs[1..], xs);
      }
    }
  }

  lemma SatisfiableTail<C, I(!new)>(m: Rules<C, I>, cs: seq<C>)
    requires cs != [] && Satisfiable(m, cs)
    ensures Satisfiable(m, cs[1..])
  {
    forall j | 0 <= j < |cs[1..]| && m.required(cs[1..][j]) ensures exists x :: m.accepts(cs[1..][j], x)
    {
      assert cs[1..][j] == cs[j + 1];
    }
  }

  /** One instruction per required constraint and nothing else. */
  lemma {:induction false} Tight<C, I(!new)>(m: Rules<C, I>, cs: seq<C>) returns (xs: seq<I>)
    requires Satisfiable(m, cs)
    ensures Branching(m, cs, xs) && |xs| == RequiredCount(m, cs)
  {
    if cs == [] {
      xs := [];
    } else {
      SatisfiableTail(m, cs);
      xs := Tight(m, cs[1..]);
      if m.required(cs[0]) {
        var x :| m.accepts(cs[0], x);
        var rest := xs;
        xs := [x] + rest;
        assert xs[1..] == rest;
      }
    }
  }

  lemma {:induction false} TightFrom<C, I(!new)>(m: Rules<C, I>, cs: seq<C>, x: I) returns (xs: seq<I>)
    requires Satisfiable(m, cs) && NextRequiredAccepts(m, cs, x)
    ensures Branching(m, cs, xs) && |xs| == RequiredCount(m, cs) && xs != [] && xs[0] == x
  {
    SatisfiableTail(m, cs);
    if m.required(cs[0]) {
      var rest := Tight(m, cs[1..]);
      xs := [x] + rest;
      assert xs[1..] == rest;
    } else {
      xs := TightFrom(m, cs[1..], x);
    }
  }

  /** A clash between an optional constraint and the next required one loses an alignable transaction. */
  lemma {:induction false} ClashLoses<C, I(!new)>(m: Rules<C, I>, cs: seq<C>, j: nat, x: I) returns (xs: seq<I>)
    requires Satisfiable(m, cs)
    requires j < |cs| && !m.required(cs[j]) && m.accepts(cs[j], x) && NextRequiredAccepts(m, cs[j + 1..], x)
    ensures Branching(m, cs, xs) && |xs| == RequiredCount(m, cs) && !Greedy(m, cs, xs)
  {
    SatisfiableTail(m, cs);
    if j == 0 {
      xs := TightFrom(m, cs[1..], x);
    } else {
      assert cs[1..][j - 1] == cs[j] && cs[1..][j - 1 + 1..] == cs[j + 1..];
      xs := ClashLoses(m, cs[1..], j - 1, x);
      if m.required(cs[0]) {
        var y :| m.accepts(cs[0], y);
        var rest := xs;
        xs := [y] + rest;
        assert xs[1..] == rest;
        return;
      }
    }
    if xs != [] && m.accepts(cs[0], xs[0]) && Greedy(m, cs[1..], xs[1..]) {
      GreedyNeedsOneEach(m, cs[1..], xs[1..]);
    }
  }

  lemma AlignedIsSatisfiable<C, I(!new)>(m: Rules<C, I>, cs: seq<C>, xs: seq<I>)
    ensures Aligned(m, cs, xs) ==> Satisfiable(m, cs)
  {
    if Aligned(m, cs, xs) {
      var f :| IsAlignment(m, cs, xs, f);
      forall j | 0 <= j < |cs| && m.required(cs[j]) ensures exists x :: m.accepts(cs[j], x)
      {
        var i :| 0 <= i < |f| && f[i] == j;
        assert m.accepts(cs[j], xs[i]);
      }
    }
  }

  /**
   * Exactly when the greedy algorithm accepts every alignable transaction: when some required
   * constraint accepts no instruction at all (nothing is alignable), or when no instruction is
   * accepted by an optional constraint and also by the next required constraint after it.
   */
  lemma GreedyCompleteExactly<C, I(!new)>(m: Rules<C, I>, cs: seq<C>)
    ensures Complete(m, cs) <==> !Satisfiable(m, cs) || Separated(m, cs)
  {
    if Separated(m, cs) {
      forall xs | Aligned(m, cs, xs) ensures Greedy(m, cs, xs)
      {
        BranchingDecides(m, cs, xs);
        SeparatedIsEnough(m, cs, xs, _ => true);
      }
    } else if Satisfiable(m, cs) {
      var j, x :| 0 <= j < |cs| && !m.required(cs[j]) && m.accepts(cs[j], x) && NextRequiredAccepts(m, cs[j + 1..], x);
      var xs := ClashLoses(m, cs, j, x);
      BranchingDecides(m, cs, xs);
      assert Aligned(m, cs, xs) && !Greedy(m, cs, xs);
    } else {
      forall xs ensures !Aligned(m, cs, xs)
      {
        AlignedIsSatisfiable(m, cs, xs);
      }
    }
  }
}
