/** Thompson's construction on arena values. Each primitive is the exact sequence of
    state creations, flag writes and `AddTransition` calls of the corresponding
    `NFAConstructor` method; `Build` runs them over a parse tree in the order the
    stack evaluator does (operands before the operator that combines them). */
module Thompson {
  import opened Graph

  /** The label a literal is stored under: the letter `e` stands for ε. */
  function LabelOf(c: char): char
  {
    if c == 'e' then Epsilon else c
  }

  /** `CreateSymbolNFA(c)`: two fresh states, the end one final, one edge between them. */
  function SymbolOp(a: seq<State>, c: char): (r: (seq<State>, Fragment))
    ensures |r.0| == |a| + 2 && r.0[..|a|] == a
    ensures r.1 == Fragment(|a|, |a| + 1)
    ensures r.0[|a|] == State(-1, false, [Transition(LabelOf(c), [|a| + 1])])
    ensures r.0[|a| + 1] == State(-1, true, [])
  {
    var s, e := |a|, |a| + 1;
    var a1 := a + [NewState(), NewState()];
    var a2 := SetFinal(a1, e, true);
    (AddEdge(a2, s, LabelOf(c), e), Fragment(s, e))
  }

  /** `Concatenate(f, g)`: no new state, one ε-edge f.end -> g.start, f.end no longer final. */
  function ConcatOp(a: seq<State>, f: Fragment, g: Fragment): (r: (seq<State>, Fragment))
    requires f.end < |a|
    ensures |r.0| == |a|
    ensures r.1 == Fragment(f.start, g.end)
    ensures forall i :: 0 <= i < |a| && i != f.end ==> r.0[i] == a[i]
    ensures r.0[f.end] == State(a[f.end].id, false, WithTransition(a[f.end].transitions, Epsilon, g.start))
  {
    var a1 := AddEdge(a, f.end, Epsilon, g.start);
    (SetFinal(a1, f.end, false), Fragment(f.start, g.end))
  }

  /** `Union(f, g)`: fresh start and end; ε-edges start -> f.start, start -> g.start,
      f.end -> end, g.end -> end; only the new end is left final. */
  function UnionOp(a: seq<State>, f: Fragment, g: Fragment): (r: (seq<State>, Fragment))
    requires f.end < |a| && g.end < |a|
    ensures |r.0| == |a| + 2
    ensures r.1 == Fragment(|a|, |a| + 1)
    ensures r.0[|a|] == State(-1, false, [Transition(Epsilon, [f.start, g.start])])
    ensures r.0[|a| + 1] == State(-1, true, [])
    ensures forall i :: 0 <= i < |a| && i != f.end && i != g.end ==> r.0[i] == a[i]
    ensures r.0[f.end].id == a[f.end].id && !r.0[f.end].final
    ensures r.0[g.end].id == a[g.end].id && !r.0[g.end].final
    ensures f.end != g.end ==>
              r.0[f.end].transitions == WithTransition(a[f.end].transitions, Epsilon, |a| + 1) &&
              r.0[g.end].transitions == WithTransition(a[g.end].transitions, Epsilon, |a| + 1)
    ensures f.end == g.end ==>
              r.0[f.end].transitions ==
              WithTransition(WithTransition(a[f.end].transitions, Epsilon, |a| + 1), Epsilon, |a| + 1)
  {
    var s, e := |a|, |a| + 1;
    var a1 := a + [NewState(), NewState()];
    var a2 := SetFinal(a1, e, true);
    var a3 := SetFinal(a2, g.end, false);
    var a4 := SetFinal(a3, f.end, false);
    var a5 := AddEdge(a4, s, Epsilon, f.start);
    var a6 := AddEdge(a5, s, Epsilon, g.start);
    assert a4[s] == NewState() && a4[e] == State(-1, true, []);
    assert a4[f.end] == a[f.end].(final := false) && a4[g.end] == a[g.end].(final := false);
    assert a5[s].transitions == [Transition(Epsilon, [f.start])];
    WithTransitionOnto(Epsilon, [f.start], g.start);
    assert [f.start] + [g.start] == [f.start, g.start];
    assert a6[s].transitions == [Transition(Epsilon, [f.start, g.start])];
    var a7 := AddEdge(a6, f.end, Epsilon, e);
    (AddEdge(a7, g.end, Epsilon, e), Fragment(s, e))
  }

  /** `Star(f)`: fresh start and end; ε-edges start -> f.start, start -> end,
      f.end -> f.start, f.end -> end, in that order. */
  function StarOp(a: seq<State>, f: Fragment): (r: (seq<State>, Fragment))
    requires f.end < |a|
    ensures |r.0| == |a| + 2
    ensures r.1 == Fragment(|a|, |a| + 1)
    ensures r.0[|a|] == State(-1, false, [Transition(Epsilon, [f.start, |a| + 1])])
    ensures r.0[|a| + 1] == State(-1, true, [])
    ensures forall i :: 0 <= i < |a| && i != f.end ==> r.0[i] == a[i]
    ensures r.0[f.end] ==
            State(a[f.end].id, false,
                  WithTransition(WithTransition(a[f.end].transitions, Epsilon, f.start), Epsilon, |a| + 1))
  {
    var s, e := |a|, |a| + 1;
    var a1 := a + [NewState(), NewState()];
    var a2 := SetFinal(a1, e, true);
    var a3 := SetFinal(a2, f.end, false);
    var a4 := AddEdge(a3, s, Epsilon, f.start);
    var a5 := AddEdge(a4, s, Epsilon, e);
    assert a4[s].transitions == [Transition(Epsilon, [f.start])];
    WithTransitionOnto(Epsilon, [f.start], e);
    assert [f.start] + [e] == [f.start, e];
    assert a5[s].transitions == [Transition(Epsilon, [f.start, e])];
    var a6 := AddEdge(a5, f.end, Epsilon, f.start);
    (AddEdge(a6, f.end, Epsilon, e), Fragment(s, e))
  }

  /** `Plus(f)`: as `Star(f)` without the skip edge start -> end. */
  function PlusOp(a: seq<State>, f: Fragment): (r: (seq<State>, Fragment))
    requires f.end < |a|
    ensures |r.0| == |a| + 2
    ensures r.1 == Fragment(|a|, |a| + 1)
    ensures r.0[|a|] == State(-1, false, [Transition(Epsilon, [f.start])])
    ensures r.0[|a| + 1] == State(-1, true, [])
    ensures forall i :: 0 <= i < |a| && i != f.end ==> r.0[i] == a[i]
    ensures r.0[f.end] ==
            State(a[f.end].id, false,
                  WithTransition(WithTransition(a[f.end].transitions, Epsilon, f.start), Epsilon, |a| + 1))
  {
    var s, e := |a|, |a| + 1;
    var a1 := a + [NewState(), NewState()];
    var a2 := SetFinal(a1, e, true);
    var a3 := SetFinal(a2, f.end, false);
    var a4 := AddEdge(a3, s, Epsilon, f.start);
    var a5 := AddEdge(a4, f.end, Epsilon, f.start);
    (AddEdge(a5, f.end, Epsilon, e), Fragment(s, e))
  }

  /** The parse tree the stack evaluator reduces a regular expression to. `Sym` keeps
      the input character (the ε mapping happens in `SymbolOp`). */
  datatype Re =
    | Sym(c: char)
    | Cat(left: Re, right: Re)
    | Alt(left: Re, right: Re)
    | Star(body: Re)
    | Plus(body: Re)

  /** The number of states Thompson's construction allocates for a tree. */
  function StateCount(re: Re): nat
  {
    match re
    case Sym(_) => 2
    case Cat(x, y) => StateCount(x) + StateCount(y)
    case Alt(x, y) => StateCount(x) + StateCount(y) + 2
    case Star(x) => StateCount(x) + 2
    case Plus(x) => StateCount(x) + 2
  }

  /** Thompson's construction of `re` on top of the arena `a`: operands first, then the
      primitive that combines them. Only new states are touched. */
  function Build(re: Re, a: seq<State>): (r: (seq<State>, Fragment))
    ensures |r.0| == |a| + StateCount(re)
    ensures r.0[..|a|] == a
    ensures |a| <= r.1.start < |r.0| && |a| <= r.1.end < |r.0|
    decreases re
  {
    match re
    case Sym(c) => SymbolOp(a, c)
    case Cat(x, y) =>
      var (a1, f) := Build(x, a);
      var (a2, g) := Build(y, a1);
      var r := ConcatOp(a2, f, g);
      assert r.0[..|a|] == a by { KeptBelow(a, a1, a2, r.0, f.end, f.end); }
      r
    case Alt(x, y) =>
      var (a1, f) := Build(x, a);
      var (a2, g) := Build(y, a1);
      var r := UnionOp(a2, f, g);
      assert r.0[..|a|] == a by { KeptBelow(a, a1, a2, r.0, f.end, g.end); }
      r
    case Star(x) =>
      var (a1, f) := Build(x, a);
      var r := StarOp(a1, f);
      assert r.0[..|a|] == a by { KeptBelow(a, a1, a1, r.0, f.end, f.end); }
      r
    case Plus(x) =>
      var (a1, f) := Build(x, a);
      var r := PlusOp(a1, f);
      assert r.0[..|a|] == a by { KeptBelow(a, a1, a1, r.0, f.end, f.end); }
      r
  }

  /** Three arenas that agree below |a| with a fourth that differs from the third only
      at two indices at or above |a|. */
  lemma KeptBelow(a: seq<State>, a1: seq<State>, a2: seq<State>, b: seq<State>, i1: nat, i2: nat)
    requires |a| <= |a1| <= |a2| <= |b| && a1[..|a|] == a && a2[..|a1|] == a1
    requires |a| <= i1 && |a| <= i2
    requires forall i :: 0 <= i < |a2| && i != i1 && i != i2 ==> b[i] == a2[i]
    ensures b[..|a|] == a
  {
    forall i | 0 <= i < |a|
      ensures b[i] == a[i]
    {
      assert a1[..|a|][i] == a[i];
      assert a2[..|a1|][i] == a1[i];
    }
  }

  /** Every fragment of a stack lies in an arena of n states. */
  ghost predicate FragmentsFit(fs: seq<Fragment>, n: nat)
  {
    forall k :: 0 <= k < |fs| ==> fs[k].start < n && fs[k].end < n
  }

  /** The arena after building a stack of trees bottom to top, and the fragment of each. */
  function BuildSeq(res: seq<Re>, a: seq<State>): (r: (seq<State>, seq<Fragment>))
    ensures |r.1| == |res| && |a| <= |r.0|
  {
    if res == [] then (a, [])
    else
      var (b, fs) := BuildSeq(res[..|res| - 1], a);
      var (c, f) := Build(res[|res| - 1], b);
      (c, fs + [f])
  }

  /** A segment [lo, hi) of an arena holding one Thompson fragment: edges stay inside
      the segment and never enter its start, the end has no outgoing edge, the end is
      the only final state, and no state is numbered yet. */
  ghost predicate Inside(s: State, lo: nat, hi: nat, start: nat)
  {
    DistinctLabels(s.transitions) &&
    forall x :: x in TargetSet(s.transitions) ==> lo <= x < hi && x != start
  }

  ghost predicate Segment(a: seq<State>, lo: nat, hi: nat, f: Fragment)
  {
    && hi <= |a|
    && lo <= f.start < hi && lo <= f.end < hi && f.start != f.end
    && a[f.end].transitions == []
    && forall i :: lo <= i < hi ==> Inside(a[i], lo, hi, f.start) && (a[i].final <==> i == f.end) && a[i].id == -1
  }

  lemma SegmentExtend(a: seq<State>, b: seq<State>, lo: nat, hi: nat, f: Fragment)
    requires Segment(a, lo, hi, f) && hi <= |b| && b[..hi] == a[..hi]
    ensures Segment(b, lo, hi, f)
  {
    forall i | lo <= i < hi
      ensures b[i] == a[i]
    {
      assert b[..hi][i] == a[..hi][i];
    }
  }

  lemma SymbolSegment(a: seq<State>, c: char)
    ensures Segment(SymbolOp(a, c).0, |a|, |a| + 2, SymbolOp(a, c).1)
  {
    var r := SymbolOp(a, c).0;
    assert TargetSet(r[|a|].transitions) == {|a| + 1};
  }

  lemma ConcatSegment(a: seq<State>, lo: nat, mid: nat, f: Fragment, g: Fragment)
    requires Segment(a, lo, mid, f) && Segment(a, mid, |a|, g)
    ensures Segment(ConcatOp(a, f, g).0, lo, |a|, ConcatOp(a, f, g).1)
  {
    var r := ConcatOp(a, f, g).0;
    assert TargetSet(r[f.end].transitions) == {g.start};
    forall i | lo <= i < |a|
      ensures Inside(r[i], lo, |a|, f.start) && (r[i].final <==> i == g.end) && r[i].id == -1
    {
      if i == f.end {
        assert r[i].transitions == [Transition(Epsilon, [g.start])];
      } else if i < mid {
        assert Inside(a[i], lo, mid, f.start);
      } else {
        assert Inside(a[i], mid, |a|, g.start);
      }
    }
  }

  lemma UnionSegment(a: seq<State>, lo: nat, mid: nat, f: Fragment, g: Fragment)
    requires Segment(a, lo, mid, f) && Segment(a, mid, |a|, g)
    ensures Segment(UnionOp(a, f, g).0, lo, |a| + 2, UnionOp(a, f, g).1)
  {
    var r := UnionOp(a, f, g).0;
    var n := |a|;
    assert TargetSet(r[n].transitions) == {f.start, g.start};
    assert TargetSet(r[f.end].transitions) == {n + 1};
    assert TargetSet(r[g.end].transitions) == {n + 1};
    forall i | lo <= i < n + 2
      ensures Inside(r[i], lo, n + 2, n) && (r[i].final <==> i == n + 1) && r[i].id == -1
    {
      if i == n {
        assert DistinctLabels(r[i].transitions);
      } else if i == n + 1 || i == f.end || i == g.end {
      } else if i < mid {
        assert Inside(a[i], lo, mid, f.start);
      } else {
        assert Inside(a[i], mid, n, g.start);
      }
    }
  }

  lemma StarSegment(a: seq<State>, lo: nat, f: Fragment)
    requires Segment(a, lo, |a|, f)
    ensures Segment(StarOp(a, f).0, lo, |a| + 2, StarOp(a, f).1)
  {
    var r := StarOp(a, f).0;
    var n := |a|;
    assert TargetSet(r[n].transitions) == {f.start, n + 1};
    assert TargetSet(r[f.end].transitions) == {f.start, n + 1};
    WithTransitionDistinct([], Epsilon, f.start);
    WithTransitionDistinct(WithTransition([], Epsilon, f.start), Epsilon, n + 1);
    forall i | lo <= i < n + 2
      ensures Inside(r[i], lo, n + 2, n) && (r[i].final <==> i == n + 1) && r[i].id == -1
    {
      if i < n && i != f.end {
        assert Inside(a[i], lo, n, f.start);
      }
    }
  }

  lemma PlusSegment(a: seq<State>, lo: nat, f: Fragment)
    requires Segment(a, lo, |a|, f)
    ensures Segment(PlusOp(a, f).0, lo, |a| + 2, PlusOp(a, f).1)
  {
    var r := PlusOp(a, f).0;
    var n := |a|;
    assert TargetSet(r[n].transitions) == {f.start};
    assert TargetSet(r[f.end].transitions) == {f.start, n + 1};
    WithTransitionDistinct([], Epsilon, f.start);
    WithTransitionDistinct(WithTransition([], Epsilon, f.start), Epsilon, n + 1);
    forall i | lo <= i < n + 2
      ensures Inside(r[i], lo, n + 2, n) && (r[i].final <==> i == n + 1) && r[i].id == -1
    {
      if i < n && i != f.end {
        assert Inside(a[i], lo, n, f.start);
      }
    }
  }

  /** ConcatOp on two consecutive segments, the second built after the first. */
  lemma ConcatBuilt(lo: nat, a1: seq<State>, a2: seq<State>, f: Fragment, g: Fragment)
    requires Segment(a1, lo, |a1|, f) && |a1| <= |a2| && a2[..|a1|] == a1 && Segment(a2, |a1|, |a2|, g)
    ensures Segment(ConcatOp(a2, f, g).0, lo, |ConcatOp(a2, f, g).0|, ConcatOp(a2, f, g).1)
  {
    SegmentExtend(a1, a2, lo, |a1|, f);
    ConcatSegment(a2, lo, |a1|, f, g);
  }

  /** The step of `BuildSegment` for a concatenation. */
  lemma CatBuildSegment(x: Re, y: Re, a: seq<State>)
    requires Segment(Build(x, a).0, |a|, |Build(x, a).0|, Build(x, a).1)
    requires var a1 := Build(x, a).0; Segment(Build(y, a1).0, |a1|, |Build(y, a1).0|, Build(y, a1).1)
    ensures Segment(Build(Cat(x, y), a).0, |a|, |Build(Cat(x, y), a).0|, Build(Cat(x, y), a).1)
  {
    var a1, f := Build(x, a).0, Build(x, a).1;
    var a2, g := Build(y, a1).0, Build(y, a1).1;
    ConcatBuilt(|a|, a1, a2, f, g);
  }

  /** UnionOp on two consecutive segments, the second built after the first. */
  lemma UnionBuilt(lo: nat, a1: seq<State>, a2: seq<State>, f: Fragment, g: Fragment)
    requires Segment(a1, lo, |a1|, f) && |a1| <= |a2| && a2[..|a1|] == a1 && Segment(a2, |a1|, |a2|, g)
    ensures Segment(UnionOp(a2, f, g).0, lo, |UnionOp(a2, f, g).0|, UnionOp(a2, f, g).1)
  {
    SegmentExtend(a1, a2, lo, |a1|, f);
    UnionSegment(a2, lo, |a1|, f, g);
  }

  /** The step of `BuildSegment` for a union. */
  lemma AltBuildSegment(x: Re, y: Re, a: seq<State>)
    requires Segment(Build(x, a).0, |a|, |Build(x, a).0|, Build(x, a).1)
    requires var a1 := Build(x, a).0; Segment(Build(y, a1).0, |a1|, |Build(y, a1).0|, Build(y, a1).1)
    ensures Segment(Build(Alt(x, y), a).0, |a|, |Build(Alt(x, y), a).0|, Build(Alt(x, y), a).1)
  {
    var a1, f := Build(x, a).0, Build(x, a).1;
    var a2, g := Build(y, a1).0, Build(y, a1).1;
    UnionBuilt(|a|, a1, a2, f, g);
  }

  /** Thompson's invariant: whatever the tree, the states built for it form one segment
      whose only final state is the fragment's end, whose end has no outgoing edge,
      whose start has no incoming edge, and whose edges never leave the segment. */
  lemma {:induction false} BuildSegment(re: Re, a: seq<State>)
    ensures Segment(Build(re, a).0, |a|, |Build(re, a).0|, Build(re, a).1)
    decreases re
  {
    match re
    case Sym(c) =>
      SymbolSegment(a, c);
    case Cat(x, y) =>
      BuildSegment(x, a);
      BuildSegment(y, Build(x, a).0);
      CatBuildSegment(x, y, a);
    case Alt(x, y) =>
      BuildSegment(x, a);
      BuildSegment(y, Build(x, a).0);
      AltBuildSegment(x, y, a);
    case Star(x) =>
      BuildSegment(x, a);
      StarSegment(Build(x, a).0, |a|, Build(x, a).1);
    case Plus(x) =>
      BuildSegment(x, a);
      PlusSegment(Build(x, a).0, |a|, Build(x, a).1);
  }

  /** Building on a well-formed arena leaves it well-formed. */
  lemma BuildWellFormed(re: Re, a: seq<State>)
    requires WellFormed(a)
    ensures WellFormed(Build(re, a).0)
  {
    var (b, f) := Build(re, a);
    BuildSegment(re, a);
    forall i | 0 <= i < |b|
      ensures StateFits(b[i], |b|)
    {
      if i < |a| {
        assert b[..|a|][i] == a[i];
        assert StateFits(a[i], |a|);
      } else {
        assert Inside(b[i], |a|, |b|, f.start);
      }
    }
  }

  // ---------------------------------------------------------------------------
  // Every state of a built fragment is reachable from its start.

  /** The arena c has at least the edges b has, at every index in [lo, hi). */
  ghost predicate EdgesKept(b: seq<State>, c: seq<State>, lo: nat, hi: nat)
  {
    hi <= |b| && hi <= |c| && forall i :: lo <= i < hi ==> TargetSet(b[i].transitions) <= TargetSet(c[i].transitions)
  }

  /** No edge of c leaves the set S. */
  ghost predicate ClosedUnder(c: seq<State>, S: set<nat>)
  {
    forall x {:trigger c[x]} :: x in S && x < |c| ==> TargetSet(c[x].transitions) <= S
  }

  /** Building further on an arena keeps its edges. */
  lemma PrefixKept(b: seq<State>, b': seq<State>, lo: nat, hi: nat)
    requires hi <= |b| <= |b'| && b'[..|b|] == b
    ensures EdgesKept(b, b', lo, hi)
  {
    forall i | lo <= i < hi
      ensures b'[i] == b[i]
    {
      assert b'[..|b|][i] == b[i];
    }
  }

  lemma ConcatKeeps(a: seq<State>, f: Fragment, g: Fragment)
    requires f.end < |a|
    ensures EdgesKept(a, ConcatOp(a, f, g).0, 0, |a|)
    ensures g.start in TargetSet(ConcatOp(a, f, g).0[f.end].transitions)
  {
    WithTransitionTargetSet(a[f.end].transitions, Epsilon, g.start);
  }

  lemma UnionKeeps(a: seq<State>, f: Fragment, g: Fragment)
    requires f.end < |a| && g.end < |a|
    ensures EdgesKept(a, UnionOp(a, f, g).0, 0, |a|)
    ensures TargetSet(UnionOp(a, f, g).0[|a|].transitions) == {f.start, g.start}
    ensures |a| + 1 in TargetSet(UnionOp(a, f, g).0[f.end].transitions)
    ensures |a| + 1 in TargetSet(UnionOp(a, f, g).0[g.end].transitions)
  {
    var r := UnionOp(a, f, g).0;
    var n := |a|;
    var tf := WithTransition(a[f.end].transitions, Epsilon, n + 1);
    WithTransitionTargetSet(a[f.end].transitions, Epsilon, n + 1);
    if f.end == g.end {
      WithTransitionTargetSet(tf, Epsilon, n + 1);
      assert TargetSet(r[f.end].transitions) == TargetSet(a[f.end].transitions) + {n + 1};
    } else {
      WithTransitionTargetSet(a[g.end].transitions, Epsilon, n + 1);
      assert TargetSet(r[f.end].transitions) == TargetSet(a[f.end].transitions) + {n + 1};
      assert TargetSet(r[g.end].transitions) == TargetSet(a[g.end].transitions) + {n + 1};
    }
    assert TargetSet(r[n].transitions) == {f.start, g.start};
  }

  lemma StarKeeps(a: seq<State>, f: Fragment)
    requires f.end < |a|
    ensures EdgesKept(a, StarOp(a, f).0, 0, |a|)
    ensures TargetSet(StarOp(a, f).0[|a|].transitions) == {f.start, |a| + 1}
  {
    var n := |a|;
    WithTransitionTargetSet(a[f.end].transitions, Epsilon, f.start);
    WithTransitionTargetSet(WithTransition(a[f.end].transitions, Epsilon, f.start), Epsilon, n + 1);
    assert TargetSet(StarOp(a, f).0[n].transitions) == {f.start, n + 1};
  }

  lemma PlusKeeps(a: seq<State>, f: Fragment)
    requires f.end < |a|
    ensures EdgesKept(a, PlusOp(a, f).0, 0, |a|)
    ensures TargetSet(PlusOp(a, f).0[|a|].transitions) == {f.start}
    ensures |a| + 1 in TargetSet(PlusOp(a, f).0[f.end].transitions)
  {
    var n := |a|;
    WithTransitionTargetSet(a[f.end].transitions, Epsilon, f.start);
    WithTransitionTargetSet(WithTransition(a[f.end].transitions, Epsilon, f.start), Epsilon, n + 1);
    assert TargetSet(PlusOp(a, f).0[n].transitions) == {f.start};
  }

  /** The edges of both operands of a concatenation or a union are kept in c, where b
      is the arena after the combining primitive. */
  lemma OperandsKept(x: Re, y: Re, a: seq<State>, b: seq<State>, c: seq<State>)
    requires var a2 := Build(y, Build(x, a).0).0;
             |a2| <= |b| && EdgesKept(a2, b, 0, |a2|) && EdgesKept(b, c, |a|, |a2|)
    ensures EdgesKept(Build(x, a).0, c, |a|, |Build(x, a).0|)
    ensures EdgesKept(Build(y, Build(x, a).0).0, c, |Build(x, a).0|, |Build(y, Build(x, a).0).0|)
  {
    var a1 := Build(x, a).0;
    ChainKept(|a|, a1, Build(y, a1).0, b, c);
  }

  /** Edges kept from a1 to its extension a2, from a2 to b and from b to c over
      [lo, |a2|) are kept from a1 and a2 to c. */
  lemma ChainKept(lo: nat, a1: seq<State>, a2: seq<State>, b: seq<State>, c: seq<State>)
    requires lo <= |a1| <= |a2| <= |b| && a2[..|a1|] == a1
    requires EdgesKept(a2, b, 0, |a2|) && EdgesKept(b, c, lo, |a2|)
    ensures EdgesKept(a1, c, lo, |a1|) && EdgesKept(a2, c, |a1|, |a2|)
  {
    PrefixKept(a1, a2, lo, |a1|);
    forall i | lo <= i < |a2|
      ensures TargetSet(a2[i].transitions) <= TargetSet(c[i].transitions)
    {
      assert TargetSet(a2[i].transitions) <= TargetSet(b[i].transitions);
    }
  }

  /** What `BuildCovers` assumes of a tree, and what it concludes. */
  ghost predicate CoverHyp(re: Re, a: seq<State>, c: seq<State>, S: set<nat>)
  {
    EdgesKept(Build(re, a).0, c, |a|, |Build(re, a).0|) && ClosedUnder(c, S) && Build(re, a).1.start in S
  }

  ghost predicate Covered(re: Re, a: seq<State>, S: set<nat>)
  {
    forall i :: |a| <= i < |Build(re, a).0| ==> i in S
  }

  lemma SymCovers(ch: char, a: seq<State>, c: seq<State>, S: set<nat>)
    requires CoverHyp(Sym(ch), a, c, S)
    ensures Covered(Sym(ch), a, S)
  {
    assert TargetSet(SymbolOp(a, ch).0[|a|].transitions) == {|a| + 1};
  }

  /** A concatenation: the left operand starts where the whole does ... */
  lemma CatLeft(x: Re, y: Re, a: seq<State>, c: seq<State>, S: set<nat>)
    requires CoverHyp(Cat(x, y), a, c, S)
    ensures CoverHyp(x, a, c, S)
    ensures EdgesKept(Build(y, Build(x, a).0).0, c, |Build(x, a).0|, |Build(y, Build(x, a).0).0|)
  {
    var a1, f := Build(x, a).0, Build(x, a).1;
    var a2, g := Build(y, a1).0, Build(y, a1).1;
    ConcatKeeps(a2, f, g);
    OperandsKept(x, y, a, ConcatOp(a2, f, g).0, c);
  }

  /** ... and the ε-edge from its end leads to the right operand's start. */
  lemma CatRight(x: Re, y: Re, a: seq<State>, c: seq<State>, S: set<nat>)
    requires CoverHyp(Cat(x, y), a, c, S) && Covered(x, a, S)
    requires EdgesKept(Build(y, Build(x, a).0).0, c, |Build(x, a).0|, |Build(y, Build(x, a).0).0|)
    ensures CoverHyp(y, Build(x, a).0, c, S)
  {
    var a1, f := Build(x, a).0, Build(x, a).1;
    var a2, g := Build(y, a1).0, Build(y, a1).1;
    ConcatKeeps(a2, f, g);
    assert f.end in S;
  }

  lemma CatCovered(x: Re, y: Re, a: seq<State>, S: set<nat>)
    requires Covered(x, a, S) && Covered(y, Build(x, a).0, S)
    ensures Covered(Cat(x, y), a, S)
  {
  }

  /** A union: the new start leads to both operands' starts ... */
  lemma AltOperands(x: Re, y: Re, a: seq<State>, c: seq<State>, S: set<nat>)
    requires CoverHyp(Alt(x, y), a, c, S)
    ensures CoverHyp(x, a, c, S) && CoverHyp(y, Build(x, a).0, c, S)
  {
    var a1, f := Build(x, a).0, Build(x, a).1;
    var a2, g := Build(y, a1).0, Build(y, a1).1;
    UnionKeeps(a2, f, g);
    OperandsKept(x, y, a, UnionOp(a2, f, g).0, c);
  }

  /** ... and the left operand's end leads to the new end. */
  lemma AltCovered(x: Re, y: Re, a: seq<State>, c: seq<State>, S: set<nat>)
    requires CoverHyp(Alt(x, y), a, c, S) && Covered(x, a, S) && Covered(y, Build(x, a).0, S)
    ensures Covered(Alt(x, y), a, S)
  {
    var a1, f := Build(x, a).0, Build(x, a).1;
    var a2, g := Build(y, a1).0, Build(y, a1).1;
    assert Build(Alt(x, y), a) == UnionOp(a2, f, g);
    UnionCovered(|a|, |a1|, a2, f, g, c, S);
  }

  /** A union's states are covered once its operands' are. */
  lemma UnionCovered(lo: nat, mid: nat, a2: seq<State>, f: Fragment, g: Fragment, c: seq<State>, S: set<nat>)
    requires lo <= f.end < mid <= |a2| && g.end < |a2|
    requires EdgesKept(UnionOp(a2, f, g).0, c, lo, |a2| + 2) && ClosedUnder(c, S) && |a2| in S
    requires forall i :: lo <= i < mid ==> i in S
    requires forall i :: mid <= i < |a2| ==> i in S
    ensures forall i :: lo <= i < |a2| + 2 ==> i in S
  {
    AltEnd(a2, f, g, lo, c, S);
    RangesJoin(lo, mid, |a2|, S);
  }

  /** The new end of a union is reached from the left operand's end. */
  lemma AltEnd(a2: seq<State>, f: Fragment, g: Fragment, lo: nat, c: seq<State>, S: set<nat>)
    requires lo <= f.end < |a2| && g.end < |a2| && f.end in S && ClosedUnder(c, S)
    requires EdgesKept(UnionOp(a2, f, g).0, c, lo, |a2| + 2)
    ensures |a2| + 1 in S
  {
    UnionKeeps(a2, f, g);
  }

  /** Two adjacent ranges and the two indices after them make one range. */
  lemma RangesJoin(lo: nat, mid: nat, hi: nat, S: set<nat>)
    requires lo <= mid <= hi && hi in S && hi + 1 in S
    requires forall i :: lo <= i < mid ==> i in S
    requires forall i :: mid <= i < hi ==> i in S
    ensures forall i :: lo <= i < hi + 2 ==> i in S
  {
  }

  /** A star: the new start leads to the body and to the new end. */
  lemma StarCovers(x: Re, a: seq<State>, c: seq<State>, S: set<nat>)
    requires CoverHyp(Star(x), a, c, S)
    ensures CoverHyp(x, a, c, S)
    ensures Covered(x, a, S) ==> Covered(Star(x), a, S)
  {
    StarBody(x, a, c, S);
    if Covered(x, a, S) {
      StarCoveredStep(x, a, S);
    }
  }

  lemma StarBody(x: Re, a: seq<State>, c: seq<State>, S: set<nat>)
    requires CoverHyp(Star(x), a, c, S)
    ensures CoverHyp(x, a, c, S) && Build(Star(x), a).1.end in S
  {
    var a1, f := Build(x, a).0, Build(x, a).1;
    BuildStar(x, a);
    StarStep(|a|, a1, f, c, S);
  }

  lemma StarStep(lo: nat, a1: seq<State>, f: Fragment, c: seq<State>, S: set<nat>)
    requires lo <= |a1| && f.end < |a1|
    requires EdgesKept(StarOp(a1, f).0, c, lo, |a1| + 2) && ClosedUnder(c, S) && |a1| in S
    ensures EdgesKept(a1, c, lo, |a1|) && f.start in S && StarOp(a1, f).1.end in S
  {
    var b := StarOp(a1, f).0;
    StarKeeps(a1, f);
    KeptWithin(a1, b, c, lo, |b|);
    StepsInto(b, c, S, lo, |b|, |a1|);
  }

  /** A plus: the new start leads to the body, whose end leads to the new end. */
  lemma PlusCovers(x: Re, a: seq<State>, c: seq<State>, S: set<nat>)
    requires CoverHyp(Plus(x), a, c, S)
    ensures CoverHyp(x, a, c, S)
    ensures Covered(x, a, S) ==> Covered(Plus(x), a, S)
  {
    PlusBody(x, a, c, S);
    if Covered(x, a, S) {
      assert Build(x, a).1.end in S;
      PlusCoveredStep(x, a, S);
    }
  }

  lemma PlusBody(x: Re, a: seq<State>, c: seq<State>, S: set<nat>)
    requires CoverHyp(Plus(x), a, c, S)
    ensures CoverHyp(x, a, c, S)
    ensures Build(x, a).1.end in S ==> Build(Plus(x), a).1.end in S
  {
    var a1, f := Build(x, a).0, Build(x, a).1;
    BuildPlus(x, a);
    PlusStep(|a|, a1, f, c, S);
  }

  lemma PlusStep(lo: nat, a1: seq<State>, f: Fragment, c: seq<State>, S: set<nat>)
    requires lo <= f.end < |a1|
    requires EdgesKept(PlusOp(a1, f).0, c, lo, |a1| + 2) && ClosedUnder(c, S) && |a1| in S
    ensures EdgesKept(a1, c, lo, |a1|) && f.start in S
    ensures f.end in S ==> PlusOp(a1, f).1.end in S
  {
    var b := PlusOp(a1, f).0;
    PlusKeeps(a1, f);
    KeptWithin(a1, b, c, lo, |b|);
    StepsInto(b, c, S, lo, |b|, |a1|);
    if f.end in S {
      StepsInto(b, c, S, lo, |b|, f.end);
    }
  }

  /** A star or a plus is built by one primitive on its body's arena, with two new
      states. */
  lemma BuildStar(x: Re, a: seq<State>)
    ensures Build(Star(x), a) == StarOp(Build(x, a).0, Build(x, a).1)
  {
  }

  lemma BuildPlus(x: Re, a: seq<State>)
    ensures Build(Plus(x), a) == PlusOp(Build(x, a).0, Build(x, a).1)
  {
  }

  /** A star's or a plus's states are covered once its body's and the two new ones are. */
  lemma StarCoveredStep(x: Re, a: seq<State>, S: set<nat>)
    requires Covered(x, a, S) && Build(Star(x), a).1.start in S && Build(Star(x), a).1.end in S
    ensures Covered(Star(x), a, S)
  {
    StarSize(x, a);
    var w := Build(Star(x), a);
    RangeGrows(|a|, w.1.start, w.1.end, |w.0|, S);
  }

  lemma PlusCoveredStep(x: Re, a: seq<State>, S: set<nat>)
    requires Covered(x, a, S) && Build(Plus(x), a).1.start in S && Build(Plus(x), a).1.end in S
    ensures Covered(Plus(x), a, S)
  {
    PlusSize(x, a);
    var w := Build(Plus(x), a);
    RangeGrows(|a|, w.1.start, w.1.end, |w.0|, S);
  }

  /** A range of members of S followed by two more members. */
  lemma RangeGrows(lo: nat, n: nat, e: nat, m: nat, S: set<nat>)
    requires e == n + 1 && m == n + 2 && n in S && e in S
    requires forall i :: lo <= i < n ==> i in S
    ensures forall i :: lo <= i < m ==> i in S
  {
  }

  lemma StarSize(x: Re, a: seq<State>)
    ensures |Build(Star(x), a).0| == |Build(x, a).0| + 2
    ensures Build(Star(x), a).1 == Fragment(|Build(x, a).0|, |Build(x, a).0| + 1)
  {
  }

  lemma PlusSize(x: Re, a: seq<State>)
    ensures |Build(Plus(x), a).0| == |Build(x, a).0| + 2
    ensures Build(Plus(x), a).1 == Fragment(|Build(x, a).0|, |Build(x, a).0| + 1)
  {
  }

  /** Edges a1 keeps in b, and b keeps in c over [lo, hi), a1 keeps in c over its part
      of that range. */
  lemma KeptWithin(a1: seq<State>, b: seq<State>, c: seq<State>, lo: nat, hi: nat)
    requires lo <= |a1| <= hi && EdgesKept(a1, b, 0, |a1|) && EdgesKept(b, c, lo, hi)
    ensures EdgesKept(a1, c, lo, |a1|)
  {
  }

  /** The edges of a member of S that c keeps stay in S. */
  lemma StepsInto(b: seq<State>, c: seq<State>, S: set<nat>, lo: nat, hi: nat, i: nat)
    requires EdgesKept(b, c, lo, hi) && ClosedUnder(c, S) && lo <= i < hi && i in S
    ensures TargetSet(b[i].transitions) <= S
  {
  }

  /** Thompson's fragments are connected: every set that holds the fragment's start
      and that no edge of c leaves (c keeping the fragment's edges) holds every state
      built for the tree. With S the states reachable from the start, this says that
      each of them is reachable. */
  lemma {:induction false} BuildCovers(re: Re, a: seq<State>, c: seq<State>, S: set<nat>)
    requires EdgesKept(Build(re, a).0, c, |a|, |Build(re, a).0|)
    requires ClosedUnder(c, S) && Build(re, a).1.start in S
    ensures forall i :: |a| <= i < |Build(re, a).0| ==> i in S
    decreases re
  {
    assert CoverHyp(re, a, c, S);
    match re
    case Sym(ch) =>
      SymCovers(ch, a, c, S);
    case Cat(x, y) =>
      CatLeft(x, y, a, c, S);
      BuildCovers(x, a, c, S);
      CatRight(x, y, a, c, S);
      BuildCovers(y, Build(x, a).0, c, S);
      CatCovered(x, y, a, S);
    case Alt(x, y) =>
      AltOperands(x, y, a, c, S);
      BuildCovers(x, a, c, S);
      BuildCovers(y, Build(x, a).0, c, S);
      AltCovered(x, y, a, c, S);
    case Star(x) =>
      StarCovers(x, a, c, S);
      BuildCovers(x, a, c, S);
    case Plus(x) =>
      PlusCovers(x, a, c, S);
      BuildCovers(x, a, c, S);
  }

  /** On an empty arena, the fragment's end is the one and only final state. */
  lemma BuildSingleFinal(re: Re)
    ensures forall i :: 0 <= i < |Build(re, []).0| ==> (Build(re, []).0[i].final <==> i == Build(re, []).1.end)
  {
    BuildSegment(re, []);
  }
}
