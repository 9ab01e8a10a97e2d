/** The invariants of the depth-first numbering walk of `ConvertToTransitionList` and
    `TraverseState`, over explicit values: the arena `a`, the list `numbered` of
    numbered states (the state with id k is `numbered[k]`), the final-flag list `ofs`,
    the table, the set `done` of visited ids, the id `cur` being recorded and the ids
    `stack` of the calls still in progress. */
module Traversal {
  import opened Graph
  import opened Table

  /** The id of state x (-1 for an index outside the arena). */
  function IdOf(a: seq<State>, x: nat): int
  {
    if x < |a| then a[x].id else -1
  }

  /** The ids of a destination list, in order. */
  function IdsOf(a: seq<State>, xs: seq<nat>): (r: seq<int>)
    ensures |r| == |xs| && forall j :: 0 <= j < |xs| ==> r[j] == IdOf(a, xs[j])
  {
    seq(|xs|, j requires 0 <= j < |xs| => IdOf(a, xs[j]))
  }

  /** The ids are a numbering: k is the id of `numbered[k]` and of no other state, and
      every state outside `numbered` still has id -1. */
  ghost predicate Numbered(a: seq<State>, numbered: seq<nat>)
  {
    && (forall k :: 0 <= k < |numbered| ==> numbered[k] < |a| && a[numbered[k]].id == k)
    && (forall v :: 0 <= v < |a| ==> a[v].id == -1 || (0 <= a[v].id < |numbered| && numbered[a[v].id] == v))
  }

  /** Two arenas that differ at most in their ids. */
  ghost predicate SameGraph(a: seq<State>, b: seq<State>)
  {
    |a| == |b| && forall v :: 0 <= v < |a| ==> a[v].final == b[v].final && a[v].transitions == b[v].transitions
  }

  /** Well-formedness does not depend on ids. */
  lemma SameGraphWellFormed(a: seq<State>, b: seq<State>)
    requires WellFormed(a) && SameGraph(a, b)
    ensures WellFormed(b)
  {
    forall i | 0 <= i < |b|
      ensures StateFits(b[i], |b|)
    {
      assert StateFits(a[i], |a|);
    }
  }

  /** `after` continues `before`: numbering only ever appends. */
  ghost predicate Extends(before: seq<nat>, after: seq<nat>)
  {
    |before| <= |after| && after[..|before|] == before
  }

  lemma ExtendsTrans(a: seq<nat>, b: seq<nat>, c: seq<nat>)
    requires Extends(a, b) && Extends(b, c)
    ensures Extends(a, c) && forall k :: 0 <= k < |a| ==> c[k] == a[k]
  {
    assert c[..|b|][..|a|] == c[..|a|];
  }

  lemma SameGraphTrans(a: seq<State>, b: seq<State>, c: seq<State>)
    requires SameGraph(a, b) && SameGraph(b, c)
    ensures SameGraph(a, c)
  {
  }

  /** Every numbered state after the first is a destination of an earlier-numbered one. */
  ghost predicate Discovered(a: seq<State>, numbered: seq<nat>)
  {
    forall k :: 1 <= k < |numbered| ==>
      exists j :: 0 <= j < k && numbered[j] < |a| && numbered[k] in TargetSet(a[numbered[j]].transitions)
  }

  /** Id k has been recorded: its final flag is in `ofs`, all of its destinations are
      numbered, and its cell in every label's row names its destinations under that
      label, in registration order. */
  ghost predicate Recorded(a: seq<State>, numbered: seq<nat>, ofs: seq<bool>, table: seq<Row>, k: int)
  {
    && 0 <= k < |numbered| && numbered[k] < |a| && k < |ofs|
    && ofs[k] == a[numbered[k]].final
    && (forall t :: t in TargetSet(a[numbered[k]].transitions) ==> IdOf(a, t) >= 0)
    && forall l :: CellAt(table, l, k) == CellText(IdsOf(a, Targets(a[numbered[k]].transitions, l)))
  }

  /** Id k has not been touched: its flag is false and its cells are empty. */
  ghost predicate Untouched(ofs: seq<bool>, table: seq<Row>, k: nat)
  {
    k < |ofs| && !ofs[k] && forall l :: CellAt(table, l, k) == ""
  }

  /** Every destination of id k has been visited. */
  ghost predicate Closed(a: seq<State>, numbered: seq<nat>, done: set<int>, k: int)
  {
    0 <= k < |numbered| && numbered[k] < |a| &&
    forall t :: t in TargetSet(a[numbered[k]].transitions) ==> IdOf(a, t) in done
  }

  /** The walk invariant: visited ids are recorded, ids neither visited nor being recorded
      are untouched, and visited ids whose call has returned have all their destinations
      visited. */
  ghost predicate Walk(a: seq<State>, numbered: seq<nat>, ofs: seq<bool>, table: seq<Row>,
                       done: set<int>, cur: int, stack: set<int>)
  {
    && Numbered(a, numbered) && |ofs| == |a| && Shaped(table, |a|) && Discovered(a, numbered)
    && (forall k :: k in done ==> Recorded(a, numbered, ofs, table, k))
    && (forall k :: 0 <= k < |a| && k !in done && k != cur ==> Untouched(ofs, table, k))
    && (forall k :: k in done && k !in stack ==> Closed(a, numbered, done, k))
  }

  // ---------------------------------------------------------------------------

  /** Pigeonhole: distinct indices below n are at most n. */
  lemma {:induction false} DistinctBound(s: seq<nat>, n: nat)
    requires forall i :: 0 <= i < |s| ==> s[i] < n
    requires forall i, j :: 0 <= i < j < |s| ==> s[i] != s[j]
    ensures |s| <= n
    decreases n
  {
    if s != [] {
      assert s[0] < n;
      if p :| 0 <= p < |s| && s[p] == n - 1 {
        var rest := s[..p] + s[p + 1..];
        assert forall i :: 0 <= i < |rest| ==> rest[i] == if i < p then s[i] else s[i + 1];
        DistinctBound(rest, n - 1);
      } else {
        DistinctBound(s, n - 1);
      }
    }
  }

  /** No more states are numbered than exist. */
  lemma NumberedBound(a: seq<State>, numbered: seq<nat>)
    requires Numbered(a, numbered)
    ensures |numbered| <= |a|
  {
    forall i, j | 0 <= i < j < |numbered|
      ensures numbered[i] != numbered[j]
    {
      assert a[numbered[i]].id == i && a[numbered[j]].id == j;
    }
    DistinctBound(numbered, |a|);
  }

  /** When every state has an id, the ids are exactly 0 .. |a| - 1. */
  lemma AllNumbered(a: seq<State>, numbered: seq<nat>)
    requires Numbered(a, numbered) && forall v :: 0 <= v < |a| ==> a[v].id >= 0
    ensures |numbered| == |a|
  {
    NumberedBound(a, numbered);
    var ids := seq(|a|, v requires 0 <= v < |a| => a[v].id as nat);
    forall i, j | 0 <= i < j < |ids|
      ensures ids[i] != ids[j]
    {
      assert numbered[ids[i]] == i && numbered[ids[j]] == j;
    }
    DistinctBound(ids, |numbered|);
  }

  /** Ids that are set stay set: numbering only ever extends `numbered`. */
  lemma NumberedKeep(a: seq<State>, numbered: seq<nat>, b: seq<State>, later: seq<nat>, x: nat)
    requires Numbered(a, numbered) && Numbered(b, later) && |a| == |b|
    requires |numbered| <= |later| && later[..|numbered|] == numbered && IdOf(a, x) >= 0
    ensures IdOf(b, x) == IdOf(a, x)
  {
    var k := a[x].id;
    assert later[k] == later[..|numbered|][k];
  }

  lemma {:induction false} TargetsInSet(ts: seq<Transition>, l: char, x: nat)
    requires x in Targets(ts, l)
    ensures x in TargetSet(ts)
  {
    if ts[0].symbol != l {
      TargetsInSet(ts[1..], l, x);
    }
  }

  lemma {:induction false} TargetSetWitness(ts: seq<Transition>, x: nat)
    requires x in TargetSet(ts)
    ensures exists j :: 0 <= j < |ts| && x in ts[j].targets
  {
    if x !in ts[0].targets {
      TargetSetWitness(ts[1..], x);
      var j :| 0 <= j < |ts[1..]| && x in ts[1..][j].targets;
      assert x in ts[j + 1].targets;
    }
  }

  /** Set ids never change once the numbering only grows. */
  lemma NumberedKeepAll(a: seq<State>, numbered: seq<nat>, b: seq<State>, later: seq<nat>)
    requires Numbered(a, numbered) && Numbered(b, later) && |a| == |b|
    requires |numbered| <= |later| && later[..|numbered|] == numbered
    ensures forall x :: IdOf(a, x) >= 0 ==> IdOf(b, x) == IdOf(a, x)
  {
    forall x | IdOf(a, x) >= 0
      ensures IdOf(b, x) == IdOf(a, x)
    {
      NumberedKeep(a, numbered, b, later, x);
    }
  }

  /** With distinct labels, the destinations of the first j + 1 entries under l are
      those of the first j, then entry j's when it carries l. */
  lemma {:induction false} TargetsPrefix(ts: seq<Transition>, j: nat, l: char)
    requires DistinctLabels(ts) && j < |ts|
    ensures Targets(ts[..j + 1], l) == Targets(ts[..j], l) + (if ts[j].symbol == l then ts[j].targets else [])
  {
    if j == 0 {
      assert ts[..1] == [ts[0]];
      assert [ts[0]][1..] == [];
    } else {
      assert DistinctLabels(ts[1..]);
      TargetsPrefix(ts[1..], j - 1, l);
      assert ts[..j + 1][1..] == ts[1..][..j];
      assert ts[..j][1..] == ts[1..][..j - 1];
      assert ts[..j + 1][0] == ts[0] && ts[..j][0] == ts[0];
    }
  }

  /** The destinations under l registered by the recording loop before position m of
      entry j. */
  function Registered(ts: seq<Transition>, j: nat, m: nat, l: char): seq<nat>
    requires j <= |ts| && (j < |ts| ==> m <= |ts[j].targets|)
  {
    Targets(ts[..j], l) + (if j < |ts| && ts[j].symbol == l then ts[j].targets[..m] else [])
  }

  /** The cells of id k hold exactly the registrations made before position m of
      entry j, and every destination registered so far is numbered. */
  ghost predicate Progress(a: seq<State>, ts: seq<Transition>, table: seq<Row>, k: nat, j: nat, m: nat)
  {
    && j <= |ts| && (j < |ts| ==> m <= |ts[j].targets|)
    && (forall l :: CellAt(table, l, k) == CellText(IdsOf(a, Registered(ts, j, m, l))))
    && (forall i, x :: 0 <= i < j && x in ts[i].targets ==> IdOf(a, x) >= 0)
    && (j < |ts| ==> forall x :: x in ts[j].targets[..m] ==> IdOf(a, x) >= 0)
  }

  /** Registered destinations are numbered, so their ids survive numbering more states. */
  lemma RegisteredStable(a: seq<State>, b: seq<State>, ts: seq<Transition>, table: seq<Row>,
                         k: nat, j: nat, m: nat, l: char)
    requires Progress(a, ts, table, k, j, m)
    requires forall x :: IdOf(a, x) >= 0 ==> IdOf(b, x) == IdOf(a, x)
    ensures IdsOf(b, Registered(ts, j, m, l)) == IdsOf(a, Registered(ts, j, m, l))
  {
    var xs := Registered(ts, j, m, l);
    forall p | 0 <= p < |xs|
      ensures IdOf(b, xs[p]) == IdOf(a, xs[p])
    {
      var x := xs[p];
      if x in Targets(ts[..j], l) {
        TargetsInSet(ts[..j], l, x);
        TargetSetWitness(ts[..j], x);
        var i :| 0 <= i < |ts[..j]| && x in ts[..j][i].targets;
        assert x in ts[i].targets;
      } else {
        assert x in ts[j].targets[..m];
      }
    }
  }

  /** One registration: destination m of entry j is added under entry j's label only;
      the cell it goes to is extended by the destination's id. */
  lemma RegisterStep(a: seq<State>, b: seq<State>, ts: seq<Transition>, j: nat, m: nat, l: char,
                     before: string, after: string)
    requires j < |ts| && m < |ts[j].targets|
    requires IdsOf(b, Registered(ts, j, m, l)) == IdsOf(a, Registered(ts, j, m, l))
    requires before == CellText(IdsOf(a, Registered(ts, j, m, l)))
    requires after == if l == ts[j].symbol then Extend(before, IdOf(b, ts[j].targets[m])) else before
    ensures after == CellText(IdsOf(b, Registered(ts, j, m + 1, l)))
  {
    var t := ts[j].targets[m];
    if l == ts[j].symbol {
      RegisterMatching(b, ts, j, m, l);
      CellTextSnoc(IdsOf(b, Registered(ts, j, m, l)), IdOf(b, t));
    } else {
      assert Registered(ts, j, m + 1, l) == Registered(ts, j, m, l);
    }
  }

  /** Registering under the entry's own label appends the destination's id. */
  lemma RegisterMatching(b: seq<State>, ts: seq<Transition>, j: nat, m: nat, l: char)
    requires j < |ts| && m < |ts[j].targets| && l == ts[j].symbol
    ensures IdsOf(b, Registered(ts, j, m + 1, l)) == IdsOf(b, Registered(ts, j, m, l)) + [IdOf(b, ts[j].targets[m])]
  {
    var pre, us, t := Targets(ts[..j], l), ts[j].targets[..m], ts[j].targets[m];
    assert ts[j].targets[..m + 1] == us + [t];
    assert pre + (us + [t]) == (pre + us) + [t];
    var xs := pre + us;
    assert IdsOf(b, xs + [t]) == IdsOf(b, xs) + [IdOf(b, t)];
  }

  /** The loop step of registering destination m of entry j, in terms of `Progress`. */
  lemma ProgressStep(a: seq<State>, b: seq<State>, ts: seq<Transition>, table: seq<Row>, table': seq<Row>,
                     k: nat, j: nat, m: nat)
    requires Progress(a, ts, table, k, j, m) && j < |ts| && m < |ts[j].targets|
    requires forall x :: IdOf(a, x) >= 0 ==> IdOf(b, x) == IdOf(a, x)
    requires IdOf(b, ts[j].targets[m]) >= 0
    requires forall l, i :: CellAt(table', l, i) ==
               (if l == ts[j].symbol && i == k then Extend(CellAt(table, l, i), IdOf(b, ts[j].targets[m]))
                else CellAt(table, l, i))
    ensures Progress(b, ts, table', k, j, m + 1)
  {
    forall l
      ensures CellAt(table', l, k) == CellText(IdsOf(b, Registered(ts, j, m + 1, l)))
    {
      RegisteredStable(a, b, ts, table, k, j, m, l);
      RegisterStep(a, b, ts, j, m, l, CellAt(table, l, k), CellAt(table', l, k));
    }
    ProgressNumbered(a, b, ts, j, m);
  }

  /** The numbered-so-far conjuncts of `Progress` after destination m is numbered. */
  lemma ProgressNumbered(a: seq<State>, b: seq<State>, ts: seq<Transition>, j: nat, m: nat)
    requires j < |ts| && m < |ts[j].targets|
    requires forall i, x :: 0 <= i < j && x in ts[i].targets ==> IdOf(a, x) >= 0
    requires forall x :: x in ts[j].targets[..m] ==> IdOf(a, x) >= 0
    requires forall x :: IdOf(a, x) >= 0 ==> IdOf(b, x) == IdOf(a, x)
    requires IdOf(b, ts[j].targets[m]) >= 0
    ensures forall i, x :: 0 <= i < j && x in ts[i].targets ==> IdOf(b, x) >= 0
    ensures forall x :: x in ts[j].targets[..m + 1] ==> IdOf(b, x) >= 0
  {
    var t := ts[j].targets[m];
    assert ts[j].targets[..m + 1] == ts[j].targets[..m] + [t];
    forall i, x | 0 <= i < j && x in ts[i].targets
      ensures IdOf(b, x) >= 0
    {
      assert IdOf(a, x) >= 0;
    }
    forall x | x in ts[j].targets[..m + 1]
      ensures IdOf(b, x) >= 0
    {
      if x != t {
        assert x in ts[j].targets[..m];
      }
    }
  }

  /** The end of entry j is the start of entry j + 1. */
  lemma ProgressRow(a: seq<State>, ts: seq<Transition>, table: seq<Row>, k: nat, j: nat)
    requires DistinctLabels(ts) && j < |ts| && Progress(a, ts, table, k, j, |ts[j].targets|)
    ensures Progress(a, ts, table, k, j + 1, 0)
  {
    forall l
      ensures Registered(ts, j, |ts[j].targets|, l) == Registered(ts, j + 1, 0, l)
    {
      RegisterRow(ts, j, l);
    }
    assert ts[j].targets[..|ts[j].targets|] == ts[j].targets;
  }

  /** Registering every entry of a transition list: all destinations are numbered and
      every label's cell names its destinations. */
  lemma ProgressDone(a: seq<State>, ts: seq<Transition>, table: seq<Row>, k: nat)
    requires DistinctLabels(ts) && Progress(a, ts, table, k, |ts|, 0)
    ensures forall x :: x in TargetSet(ts) ==> IdOf(a, x) >= 0
    ensures forall l :: CellAt(table, l, k) == CellText(IdsOf(a, Targets(ts, l)))
  {
    forall l
      ensures Registered(ts, |ts|, 0, l) == Targets(ts, l)
    {
      RegisterAll(ts, l);
    }
    forall x | x in TargetSet(ts)
      ensures IdOf(a, x) >= 0
    {
      TargetSetWitness(ts, x);
    }
  }

  /** After the last destination of entry j, registration moves on to entry j + 1. */
  lemma RegisterRow(ts: seq<Transition>, j: nat, l: char)
    requires DistinctLabels(ts) && j < |ts|
    ensures Registered(ts, j, |ts[j].targets|, l) == Registered(ts, j + 1, 0, l)
  {
    TargetsPrefix(ts, j, l);
    assert ts[j].targets[..|ts[j].targets|] == ts[j].targets;
    if j + 1 < |ts| {
      assert ts[j + 1].targets[..0] == [];
    }
  }

  /** After the last entry, everything under l is registered. */
  lemma RegisterAll(ts: seq<Transition>, l: char)
    ensures Registered(ts, |ts|, 0, l) == Targets(ts, l)
  {
    assert ts[..|ts|] == ts;
  }


  /** A destination of a visited state is numbered and exists. */
  lemma ChildNumbered(a: seq<State>, numbered: seq<nat>, ofs: seq<bool>, table: seq<Row>,
                      done: set<int>, stack: set<int>, k: int, j: nat, m: nat)
    requires Walk(a, numbered, ofs, table, done, -1, stack) && WellFormed(a) && k in done
    requires 0 <= k < |numbered| && j < |a[numbered[k]].transitions| && m < |a[numbered[k]].transitions[j].targets|
    ensures var t := a[numbered[k]].transitions[j].targets[m]; t < |a| && a[t].id >= 0
  {
    var ts := a[numbered[k]].transitions;
    TargetSetHas(ts, j, ts[j].targets[m]);
    assert Recorded(a, numbered, ofs, table, k);
  }

  /** Numbering a fresh state t extends the numbering and leaves set ids alone. */
  lemma RenumberNumbered(a: seq<State>, numbered: seq<nat>, t: nat)
    requires Numbered(a, numbered) && t < |a| && a[t].id == -1
    ensures var b := a[t := a[t].(id := |numbered|)];
      SameGraph(a, b) && Numbered(b, numbered + [t]) &&
      forall x :: IdOf(a, x) >= 0 ==> IdOf(b, x) == IdOf(a, x)
  {
  }

  /** A recorded id stays recorded when more states are numbered and its cells are
      kept: its destinations were numbered already, so their ids do not change. */
  lemma GrowRecorded(a: seq<State>, numbered: seq<nat>, ofs: seq<bool>, table: seq<Row>,
                     b: seq<State>, later: seq<nat>, table': seq<Row>, k: int)
    requires Numbered(a, numbered) && Numbered(b, later) && SameGraph(a, b) && Extends(numbered, later)
    requires Recorded(a, numbered, ofs, table, k)
    requires forall l :: CellAt(table', l, k) == CellAt(table, l, k)
    ensures Recorded(b, later, ofs, table', k)
  {
    NumberedKeepAll(a, numbered, b, later);
    var ts := a[numbered[k]].transitions;
    assert later[k] == later[..|numbered|][k];
    forall l
      ensures CellAt(table', l, k) == CellText(IdsOf(b, Targets(ts, l)))
    {
      forall x | x in Targets(ts, l)
        ensures IdOf(b, x) == IdOf(a, x)
      {
        TargetsInSet(ts, l, x);
      }
      assert IdsOf(b, Targets(ts, l)) == IdsOf(a, Targets(ts, l));
    }
  }

  lemma GrowClosed(a: seq<State>, numbered: seq<nat>, ofs: seq<bool>, table: seq<Row>,
                   b: seq<State>, later: seq<nat>, done: set<int>, k: int)
    requires Numbered(a, numbered) && Numbered(b, later) && SameGraph(a, b) && Extends(numbered, later)
    requires Recorded(a, numbered, ofs, table, k) && Closed(a, numbered, done, k)
    ensures Closed(b, later, done, k)
  {
    NumberedKeepAll(a, numbered, b, later);
    assert later[k] == later[..|numbered|][k];
  }

  lemma GrowDiscovered(a: seq<State>, numbered: seq<nat>, b: seq<State>, later: seq<nat>, cur: nat)
    requires Numbered(a, numbered) && Discovered(a, numbered) && SameGraph(a, b) && Extends(numbered, later)
    requires cur < |numbered| && numbered[cur] < |a|
    requires forall i :: |numbered| <= i < |later| ==> later[i] in TargetSet(a[numbered[cur]].transitions)
    ensures Discovered(b, later)
  {
    forall k | 1 <= k < |later|
      ensures exists j :: 0 <= j < k && later[j] < |b| && later[k] in TargetSet(b[later[j]].transitions)
    {
      assert later[cur] == later[..|numbered|][cur];
      if k < |numbered| {
        var j :| 0 <= j < k && numbered[j] < |a| && numbered[k] in TargetSet(a[numbered[j]].transitions);
        assert later[j] == later[..|numbered|][j];
        assert later[k] == later[..|numbered|][k];
      }
    }
  }

  /** Recording id cur numbers some of its destinations and writes only its own cells:
      the walk invariant is kept. */
  lemma WalkGrow(a: seq<State>, numbered: seq<nat>, ofs: seq<bool>, table: seq<Row>,
                 done: set<int>, cur: int, stack: set<int>, b: seq<State>, later: seq<nat>, table': seq<Row>)
    requires Walk(a, numbered, ofs, table, done, cur, stack) && 0 <= cur < |numbered| && cur !in done
    requires Numbered(b, later) && SameGraph(a, b) && Extends(numbered, later)
    requires forall i :: |numbered| <= i < |later| ==> later[i] in TargetSet(a[numbered[cur]].transitions)
    requires Shaped(table', |a|) && forall l, i :: i != cur ==> CellAt(table', l, i) == CellAt(table, l, i)
    ensures Walk(b, later, ofs, table', done, cur, stack)
  {
    GrowDiscovered(a, numbered, b, later, cur);
    forall k | k in done
      ensures Recorded(b, later, ofs, table', k)
    {
      GrowRecorded(a, numbered, ofs, table, b, later, table', k);
    }
    forall k | k in done && k !in stack
      ensures Closed(b, later, done, k)
    {
      GrowClosed(a, numbered, ofs, table, b, later, done, k);
    }
    forall k | 0 <= k < |b| && k !in done && k != cur
      ensures Untouched(ofs, table', k)
    {
      assert Untouched(ofs, table, k);
    }
  }

  /** Visiting id cur: its flag is written and it becomes the id being recorded. */
  lemma WalkBegin(a: seq<State>, numbered: seq<nat>, ofs: seq<bool>, table: seq<Row>,
                  done: set<int>, cur: int, stack: set<int>)
    requires Walk(a, numbered, ofs, table, done, -1, stack)
    requires 0 <= cur < |numbered| && cur !in done
    ensures |numbered| <= |a| && Untouched(ofs, table, cur)
    ensures Walk(a, numbered, ofs[cur := a[numbered[cur]].final], table, done, cur, stack)
  {
    NumberedBound(a, numbered);
    var ofs' := ofs[cur := a[numbered[cur]].final];
    forall k | k in done
      ensures Recorded(a, numbered, ofs', table, k)
    {
      assert Recorded(a, numbered, ofs, table, k);
    }
    forall k | 0 <= k < |a| && k !in done && k != cur
      ensures Untouched(ofs', table, k)
    {
      assert Untouched(ofs, table, k);
    }
  }

  /** Once recorded, id cur joins the visited ids, as a call in progress. */
  lemma WalkRecorded(a: seq<State>, numbered: seq<nat>, ofs: seq<bool>, table: seq<Row>,
                     done: set<int>, cur: int, stack: set<int>)
    requires Walk(a, numbered, ofs, table, done, cur, stack) && Recorded(a, numbered, ofs, table, cur)
    ensures Walk(a, numbered, ofs, table, done + {cur}, -1, stack + {cur})
  {
    forall k | k in done + {cur} && k !in stack + {cur}
      ensures Closed(a, numbered, done + {cur}, k)
    {
      assert Closed(a, numbered, done, k);
    }
  }

  /** Recording id cur (numbering its new destinations and filling its cells) makes it
      visited and puts it on the stack. */
  lemma WalkEnter(a: seq<State>, numbered: seq<nat>, ofs: seq<bool>, table: seq<Row>,
                  done: set<int>, cur: int, stack: set<int>, b: seq<State>, later: seq<nat>, table': seq<Row>)
    requires Walk(a, numbered, ofs, table, done, cur, stack) && 0 <= cur < |numbered| && cur !in done
    requires cur < |ofs| && numbered[cur] < |a| && ofs[cur] == a[numbered[cur]].final
    requires Numbered(b, later) && SameGraph(a, b) && Extends(numbered, later)
    requires forall i :: |numbered| <= i < |later| ==> later[i] in TargetSet(a[numbered[cur]].transitions)
    requires Shaped(table', |a|) && forall l, i :: i != cur ==> CellAt(table', l, i) == CellAt(table, l, i)
    requires forall x :: x in TargetSet(b[numbered[cur]].transitions) ==> IdOf(b, x) >= 0
    requires forall l :: CellAt(table', l, cur) == CellText(IdsOf(b, Targets(b[numbered[cur]].transitions, l)))
    ensures cur < |later| && later[cur] == numbered[cur]
    ensures Walk(b, later, ofs, table', done + {cur}, -1, stack + {cur})
  {
    WalkGrow(a, numbered, ofs, table, done, cur, stack, b, later, table');
    assert later[cur] == later[..|numbered|][cur];
    assert Recorded(b, later, ofs, table', cur);
    WalkRecorded(b, later, ofs, table', done, cur, stack);
  }

  /** The call for id cur returns once all its destinations are visited. */
  lemma WalkReturn(a: seq<State>, numbered: seq<nat>, ofs: seq<bool>, table: seq<Row>,
                   done: set<int>, cur: int, stack: set<int>)
    requires Walk(a, numbered, ofs, table, done, -1, stack + {cur}) && cur in done
    requires Closed(a, numbered, done, cur)
    ensures Walk(a, numbered, ofs, table, done, -1, stack)
  {
  }

  /** At the end of the walk from id 0, every numbered state has been visited: the
      numbered states are closed under edges, and each was reached from the start. */
  lemma WalkComplete(a: seq<State>, numbered: seq<nat>, ofs: seq<bool>, table: seq<Row>, done: set<int>)
    requires Walk(a, numbered, ofs, table, done, -1, {}) && 0 in done
    ensures forall k :: 0 <= k < |numbered| ==> k in done
  {
    forall k | 0 <= k < |numbered|
      ensures k in done
    {
      ReachedVisited(a, numbered, ofs, table, done, k);
    }
  }

  /** The walk starts with only `start` numbered, as id 0, and nothing recorded. */
  lemma WalkStart(a: seq<State>, start: nat, ofs: seq<bool>)
    requires start < |a| && |ofs| == |a| && forall v :: 0 <= v < |a| ==> a[v].id == -1
    requires forall k :: 0 <= k < |ofs| ==> !ofs[k]
    ensures SameGraph(a, a[start := a[start].(id := 0)])
    ensures Walk(a[start := a[start].(id := 0)], [start], ofs, [], {}, -1, {})
  {
  }

  /** The table and flags once every numbered id is recorded and every other id is
      untouched, written out. */
  lemma RecordedTable(a: seq<State>, numbered: seq<nat>, ofs: seq<bool>, table: seq<Row>)
    requires Numbered(a, numbered) && WellFormed(a)
    requires |ofs| == |a| && Shaped(table, |a|) && |numbered| <= |a|
    requires forall k :: 0 <= k < |numbered| ==> Recorded(a, numbered, ofs, table, k)
    requires forall k :: |numbered| <= k < |a| ==> Untouched(ofs, table, k)
    ensures forall k :: 0 <= k < |numbered| ==> forall t :: t in TargetSet(a[numbered[k]].transitions) ==> a[t].id >= 0
    ensures forall k :: 0 <= k < |a| ==> ofs[k] == (k < |numbered| && a[numbered[k]].final)
    ensures forall l, k :: 0 <= k < |numbered| ==>
              CellAt(table, l, k) == CellText(IdsOf(a, Targets(a[numbered[k]].transitions, l)))
    ensures forall l, k :: |numbered| <= k ==> CellAt(table, l, k) == ""
  {
    forall l, k | |numbered| <= k
      ensures CellAt(table, l, k) == ""
    {
      if k < |a| {
        assert Untouched(ofs, table, k);
      } else {
        UnshapedCell(table, |a|, l, k);
      }
    }
    forall k | 0 <= k < |a|
      ensures ofs[k] == (k < |numbered| && a[numbered[k]].final)
    {
      if k < |numbered| {
        assert Recorded(a, numbered, ofs, table, k);
      } else {
        assert Untouched(ofs, table, k);
      }
    }
    forall k, t | 0 <= k < |numbered| && t in TargetSet(a[numbered[k]].transitions)
      ensures a[t].id >= 0
    {
      assert Recorded(a, numbered, ofs, table, k);
      assert StateFits(a[numbered[k]], |a|);
    }
    forall l, k | 0 <= k < |numbered|
      ensures CellAt(table, l, k) == CellText(IdsOf(a, Targets(a[numbered[k]].transitions, l)))
    {
      assert Recorded(a, numbered, ofs, table, k);
    }
  }

  /** The ids below n not visited yet: what the walk has left to do. */
  ghost function Unvisited(done: set<int>, n: nat): set<int>
  {
    set x: int | 0 <= x < n && x !in done
  }

  lemma UnvisitedShrinks(done: set<int>, done': set<int>, n: nat)
    requires done <= done'
    ensures Unvisited(done', n) <= Unvisited(done, n)
  {
  }

  /** The first n destinations in xs have been visited. */
  ghost predicate VisitedUpTo(a: seq<State>, xs: seq<nat>, n: nat, done: set<int>)
  {
    n <= |xs| && forall i :: 0 <= i < n ==> IdOf(a, xs[i]) in done
  }

  /** The destinations in xs have all been visited. */
  ghost predicate AllVisited(a: seq<State>, xs: seq<nat>, done: set<int>)
  {
    VisitedUpTo(a, xs, |xs|, done)
  }

  /** Visited destinations stay visited as the walk goes on. */
  lemma AllVisitedGrow(a: seq<State>, numbered: seq<nat>, ofs: seq<bool>, table: seq<Row>, done: set<int>, stack: set<int>,
                       b: seq<State>, later: seq<nat>, done': set<int>, xs: seq<nat>, n: nat)
    requires Walk(a, numbered, ofs, table, done, -1, stack) && VisitedUpTo(a, xs, n, done)
    requires Numbered(b, later) && |a| == |b| && Extends(numbered, later) && done <= done'
    ensures VisitedUpTo(b, xs, n, done')
  {
    NumberedKeepAll(a, numbered, b, later);
    forall i | 0 <= i < n
      ensures IdOf(b, xs[i]) in done'
    {
      assert Recorded(a, numbered, ofs, table, IdOf(a, xs[i]));
    }
  }

  /** The destinations of the first j entries of a transition list are visited. */
  ghost predicate EntriesVisited(a: seq<State>, ts: seq<Transition>, j: nat, done: set<int>)
  {
    j <= |ts| && forall i :: 0 <= i < j ==> AllVisited(a, ts[i].targets, done)
  }

  /** Visiting entry j keeps the earlier entries visited and adds entry j. */
  lemma EntriesVisitedStep(a: seq<State>, numbered: seq<nat>, ofs: seq<bool>, table: seq<Row>, done: set<int>, stack: set<int>,
                           b: seq<State>, later: seq<nat>, done': set<int>, ts: seq<Transition>, j: nat)
    requires Walk(a, numbered, ofs, table, done, -1, stack) && EntriesVisited(a, ts, j, done)
    requires Numbered(b, later) && |a| == |b| && Extends(numbered, later) && done <= done'
    requires j < |ts| && AllVisited(b, ts[j].targets, done')
    ensures EntriesVisited(b, ts, j + 1, done')
  {
    forall i | 0 <= i < j
      ensures AllVisited(b, ts[i].targets, done')
    {
      AllVisitedGrow(a, numbered, ofs, table, done, stack, b, later, done', ts[i].targets, |ts[i].targets|);
    }
  }

  /** One more destination visited extends the visited prefix. */
  lemma VisitedUpToStep(a: seq<State>, xs: seq<nat>, n: nat, done: set<int>)
    requires VisitedUpTo(a, xs, n, done) && n < |xs| && IdOf(a, xs[n]) in done
    ensures VisitedUpTo(a, xs, n + 1, done)
  {
  }

  /** Once every entry's destinations are visited, the state is closed. */
  lemma AllVisitedClosed(a: seq<State>, numbered: seq<nat>, done: set<int>, k: int)
    requires 0 <= k < |numbered| && numbered[k] < |a|
    requires EntriesVisited(a, a[numbered[k]].transitions, |a[numbered[k]].transitions|, done)
    ensures Closed(a, numbered, done, k)
  {
    var ts := a[numbered[k]].transitions;
    forall x | x in TargetSet(ts)
      ensures IdOf(a, x) in done
    {
      TargetSetWitness(ts, x);
      var j :| 0 <= j < |ts| && x in ts[j].targets;
      assert AllVisited(a, ts[j].targets, done);
      var m :| 0 <= m < |ts[j].targets| && ts[j].targets[m] == x;
    }
  }

  /** The end of the walk from id 0: the table and the flags are complete. */
  lemma WalkEnd(a: seq<State>, numbered: seq<nat>, ofs: seq<bool>, table: seq<Row>, done: set<int>)
    requires Walk(a, numbered, ofs, table, done, -1, {}) && 0 in done && WellFormed(a)
    ensures Numbered(a, numbered) && Discovered(a, numbered) && 1 <= |numbered| <= |a|
    ensures Shaped(table, |a|) && |ofs| == |a|
    ensures forall k :: 0 <= k < |numbered| ==> forall t :: t in TargetSet(a[numbered[k]].transitions) ==> a[t].id >= 0
    ensures forall k :: 0 <= k < |a| ==> ofs[k] == (k < |numbered| && a[numbered[k]].final)
    ensures forall l, k :: 0 <= k < |numbered| ==>
              CellAt(table, l, k) == CellText(IdsOf(a, Targets(a[numbered[k]].transitions, l)))
    ensures forall l, k :: |numbered| <= k ==> CellAt(table, l, k) == ""
  {
    WalkEndRecorded(a, numbered, ofs, table, done);
    WalkEndUntouched(a, numbered, ofs, table, done);
    RecordedTable(a, numbered, ofs, table);
  }

  /** At the end of the walk from id 0, every numbered id is recorded, ... */
  lemma WalkEndRecorded(a: seq<State>, numbered: seq<nat>, ofs: seq<bool>, table: seq<Row>, done: set<int>)
    requires Walk(a, numbered, ofs, table, done, -1, {}) && 0 in done
    ensures |numbered| >= 1 && |numbered| <= |a|
    ensures forall k :: 0 <= k < |numbered| ==> Recorded(a, numbered, ofs, table, k)
  {
    WalkComplete(a, numbered, ofs, table, done);
    NumberedBound(a, numbered);
    assert Recorded(a, numbered, ofs, table, 0);
  }

  /** ... and every other id is untouched. */
  lemma WalkEndUntouched(a: seq<State>, numbered: seq<nat>, ofs: seq<bool>, table: seq<Row>, done: set<int>)
    requires Walk(a, numbered, ofs, table, done, -1, {})
    ensures forall k :: |numbered| <= k < |a| ==> Untouched(ofs, table, k)
  {
    forall k | |numbered| <= k < |a|
      ensures Untouched(ofs, table, k)
    {
    }
  }

  lemma {:induction false} ReachedVisited(a: seq<State>, numbered: seq<nat>, ofs: seq<bool>, table: seq<Row>,
                                       done: set<int>, k: nat)
    requires Walk(a, numbered, ofs, table, done, -1, {}) && 0 in done && k < |numbered|
    ensures k in done
    decreases k
  {
    if k > 0 {
      var j :| 0 <= j < k && numbered[j] < |a| && numbered[k] in TargetSet(a[numbered[j]].transitions);
      ReachedVisited(a, numbered, ofs, table, done, j);
      assert Closed(a, numbered, done, j);
      assert IdOf(a, numbered[k]) == k;
    }
  }

  // ---------------------------------------------------------------------------
  // The walk as a pure reference: which state gets which id, and which label gets
  // which row, in the order the C# program hands them out.

  /** The graph of an arena: each state's transition list, ids left out. */
  function Edges(a: seq<State>): (g: seq<seq<Transition>>)
    ensures |g| == |a| && forall v :: 0 <= v < |a| ==> g[v] == a[v].transitions
  {
    seq(|a|, v requires 0 <= v < |a| => a[v].transitions)
  }

  /** What the walk has handed out so far: the states in numbering order (the state
      with id k is `numbered[k]`) and the labels in the order their rows were created. */
  datatype Tally = Tally(numbered: seq<nat>, labels: seq<char>)

  /** The tally and the set of visited states. */
  datatype Trail = Trail(tally: Tally, seen: set<nat>)

  /** One registration of destination x under `symbol`: x gets the next id unless it has
      one, and the label gets a row unless it has one. */
  function Note(t: Tally, symbol: char, x: nat): Tally
  {
    Tally(if x in t.numbered then t.numbered else t.numbered + [x],
          if symbol in t.labels then t.labels else t.labels + [symbol])
  }

  /** The first m registrations of one label's destination list. */
  function NoteTargets(t: Tally, symbol: char, xs: seq<nat>, m: nat): Tally
    requires m <= |xs|
  {
    if m == 0 then t else Note(NoteTargets(t, symbol, xs, m - 1), symbol, xs[m - 1])
  }

  /** The tallies the registrations of xs pass through: entry m is the tally after the
      first m registrations. */
  function NoteTrace(t: Tally, symbol: char, xs: seq<nat>, m: nat): (r: seq<Tally>)
    requires m <= |xs|
    ensures |r| == m + 1 && forall i {:trigger NoteTargets(t, symbol, xs, i)} :: 0 <= i <= m ==> r[i] == NoteTargets(t, symbol, xs, i)
  {
    seq(m + 1, i requires 0 <= i <= m => NoteTargets(t, symbol, xs, i))
  }

  lemma NoteTraceStep(t: Tally, symbol: char, xs: seq<nat>, trace: seq<Tally>, m: nat)
    requires m < |xs| && |trace| == |xs| + 1
    requires forall i {:trigger NoteTargets(t, symbol, xs, i)} :: 0 <= i <= |xs| ==> trace[i] == NoteTargets(t, symbol, xs, i)
    ensures trace[m + 1] == Note(trace[m], symbol, xs[m])
  {
    assert trace[m] == NoteTargets(t, symbol, xs, m);
    assert trace[m + 1] == NoteTargets(t, symbol, xs, m + 1);
  }

  /** The registrations of the first j entries of a transition list, entry by entry. */
  function NoteEntries(t: Tally, ts: seq<Transition>, j: nat): Tally
    requires j <= |ts|
  {
    if j == 0 then t
    else NoteTargets(NoteEntries(t, ts, j - 1), ts[j - 1].symbol, ts[j - 1].targets, |ts[j - 1].targets|)
  }

  /** The states below n not visited yet. */
  ghost function Unseen(n: nat, seen: set<nat>): set<nat>
  {
    set x: nat | x < n && x !in seen
  }

  lemma UnseenShrinks(n: nat, seen: set<nat>, seen': set<nat>)
    requires seen <= seen'
    ensures Unseen(n, seen') <= Unseen(n, seen)
  {
  }

  /** `TraverseState(v)`: nothing when v is visited; otherwise v is marked visited, its
      destinations are registered, and then each destination is visited in order. (A
      destination outside the arena, which a well-formed arena does not have, is left
      alone.) */
  function DfsVisit(g: seq<seq<Transition>>, tr: Trail, v: nat): (r: Trail)
    ensures tr.seen <= r.seen
    decreases Unseen(|g|, tr.seen), 0, 0
  {
    if v >= |g| || v in tr.seen then tr
    else
      var ts := g[v];
      assert v in Unseen(|g|, tr.seen) && v !in Unseen(|g|, tr.seen + {v});
      DfsEntries(g, Trail(NoteEntries(tr.tally, ts, |ts|), tr.seen + {v}), ts, |ts|)
  }

  /** The visits of the destinations of the first j entries, entry by entry. */
  function DfsEntries(g: seq<seq<Transition>>, tr: Trail, ts: seq<Transition>, j: nat): (r: Trail)
    requires j <= |ts|
    ensures tr.seen <= r.seen
    decreases Unseen(|g|, tr.seen), 2, j
  {
    if j == 0 then tr
    else
      var prev := DfsEntries(g, tr, ts, j - 1);
      UnseenShrinks(|g|, tr.seen, prev.seen);
      DfsTargets(g, prev, ts[j - 1].targets, |ts[j - 1].targets|)
  }

  /** The visits of the first m destinations of one list, in order. */
  function DfsTargets(g: seq<seq<Transition>>, tr: Trail, xs: seq<nat>, m: nat): (r: Trail)
    requires m <= |xs|
    ensures tr.seen <= r.seen
    decreases Unseen(|g|, tr.seen), 1, m
  {
    if m == 0 then tr
    else
      var prev := DfsTargets(g, tr, xs, m - 1);
      UnseenShrinks(|g|, tr.seen, prev.seen);
      DfsVisit(g, prev, xs[m - 1])
  }

  /** The trails the visits of xs pass through: entry m is the trail after the first
      m visits. */
  function TargetsTrace(g: seq<seq<Transition>>, tr: Trail, xs: seq<nat>, m: nat): (r: seq<Trail>)
    requires m <= |xs|
    ensures |r| == m + 1 && forall i {:trigger DfsTargets(g, tr, xs, i)} :: 0 <= i <= m ==> r[i] == DfsTargets(g, tr, xs, i)
  {
    if m == 0 then [tr] else TargetsTrace(g, tr, xs, m - 1) + [DfsTargets(g, tr, xs, m)]
  }

  lemma TargetsTraceStep(g: seq<seq<Transition>>, tr: Trail, xs: seq<nat>, trace: seq<Trail>, m: nat)
    requires m < |xs| && |trace| == |xs| + 1
    requires forall i {:trigger DfsTargets(g, tr, xs, i)} :: 0 <= i <= |xs| ==> trace[i] == DfsTargets(g, tr, xs, i)
    ensures trace[m + 1] == DfsVisit(g, trace[m], xs[m])
  {
    assert trace[m] == DfsTargets(g, tr, xs, m);
    assert trace[m + 1] == DfsTargets(g, tr, xs, m + 1);
  }

  /** The trails the visits of the entries of ts pass through: entry j is the trail
      after the first j entries. */
  function EntriesTrace(g: seq<seq<Transition>>, tr: Trail, ts: seq<Transition>, j: nat): (r: seq<Trail>)
    requires j <= |ts|
    ensures |r| == j + 1 && forall i {:trigger DfsEntries(g, tr, ts, i)} :: 0 <= i <= j ==> r[i] == DfsEntries(g, tr, ts, i)
  {
    if j == 0 then [tr] else EntriesTrace(g, tr, ts, j - 1) + [DfsEntries(g, tr, ts, j)]
  }

  lemma EntriesTraceStep(g: seq<seq<Transition>>, tr: Trail, ts: seq<Transition>, trace: seq<Trail>, j: nat)
    requires j < |ts| && |trace| == |ts| + 1
    requires forall i {:trigger DfsEntries(g, tr, ts, i)} :: 0 <= i <= |ts| ==> trace[i] == DfsEntries(g, tr, ts, i)
    ensures trace[j + 1] == DfsTargets(g, trace[j], ts[j].targets, |ts[j].targets|)
  {
    assert trace[j] == DfsEntries(g, tr, ts, j);
    assert trace[j + 1] == DfsEntries(g, tr, ts, j + 1);
  }

  /** `ConvertToTransitionList` from `start`: the start alone numbered, nothing visited,
      no rows, then the visit of the start. */
  function DfsOrder(g: seq<seq<Transition>>, start: nat): Tally
  {
    DfsVisit(g, Trail(Tally([start], []), {}), start).tally
  }

  // The walk's state seen as a trail.

  /** The visited states, read from the visited ids. */
  ghost function SeenOf(numbered: seq<nat>, done: set<int>): set<nat>
  {
    set k | k in done && 0 <= k < |numbered| :: numbered[k]
  }

  ghost function TallyOf(numbered: seq<nat>, table: seq<Row>): Tally
  {
    Tally(numbered, RowLabels(table))
  }

  ghost function TrailOf(numbered: seq<nat>, done: set<int>, table: seq<Row>): Trail
  {
    Trail(TallyOf(numbered, table), SeenOf(numbered, done))
  }

  /** Renumbering leaves the graph alone. */
  lemma SameGraphEdges(a: seq<State>, b: seq<State>)
    requires SameGraph(a, b)
    ensures Edges(a) == Edges(b)
  {
  }

  /** A state has an id exactly when it is numbered. */
  lemma NumberedFresh(a: seq<State>, numbered: seq<nat>, t: nat)
    requires Numbered(a, numbered) && t < |a|
    ensures a[t].id == -1 <==> t !in numbered
  {
    if t in numbered {
      var k :| 0 <= k < |numbered| && numbered[k] == t;
    }
  }

  /** A numbered state is visited exactly when its id is. */
  lemma SeenOfHas(a: seq<State>, numbered: seq<nat>, done: set<int>, v: nat)
    requires Numbered(a, numbered) && v < |a| && a[v].id >= 0
    ensures v in SeenOf(numbered, done) <==> a[v].id in done
  {
    if a[v].id in done {
      assert numbered[a[v].id] == v;
    }
  }

  /** Visiting one more id, while the numbering grows, adds its state. */
  lemma SeenOfGrow(numbered: seq<nat>, later: seq<nat>, done: set<int>, id: int)
    requires Extends(numbered, later) && 0 <= id < |later|
    requires forall k :: k in done ==> 0 <= k < |numbered|
    ensures SeenOf(later, done + {id}) == SeenOf(numbered, done) + {later[id]}
  {
    forall k | k in done
      ensures later[k] == numbered[k]
    {
      assert later[..|numbered|][k] == numbered[k];
    }
  }
}
