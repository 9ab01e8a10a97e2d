/** Option type shared by the modules below: `None` stands for the runs in which the
    C# program throws (an empty stack popped, a missing dictionary key). */
module Options {
  datatype Option<+T> = None | Some(value: T)
}

/** The state graph. A state object of the C# program is an index into an
    arena (`seq<State>`); its transitions are an insertion-ordered list of
    (label, destination list) pairs, which is what the program's dictionary
    enumerates. */
module Graph {

  /** The label of the wiring transitions. */
  const Epsilon: char := 'ε'

  datatype Transition = Transition(symbol: char, targets: seq<nat>)

  /** `id` is -1 until the traversal numbers the state. */
  datatype State = State(id: int, final: bool, transitions: seq<Transition>)

  /** A sub-automaton: its start state and its end state (arena indices). */
  datatype Fragment = Fragment(start: nat, end: nat)

  /** A freshly created state: unnumbered, not final, no transitions. */
  function NewState(): State
  {
    State(-1, false, [])
  }

  /** The labels of a transition list, in insertion order. */
  function Labels(ts: seq<Transition>): seq<char>
  {
    if ts == [] then [] else [ts[0].symbol] + Labels(ts[1..])
  }

  ghost predicate DistinctLabels(ts: seq<Transition>)
  {
    forall j, k :: 0 <= j < k < |ts| ==> ts[j].symbol != ts[k].symbol
  }

  /** The destination list stored under `symbol`, or [] when the symbol is absent. */
  function Targets(ts: seq<Transition>, symbol: char): seq<nat>
  {
    if ts == [] then []
    else if ts[0].symbol == symbol then ts[0].targets
    else Targets(ts[1..], symbol)
  }

  /** Every destination of every symbol. */
  function TargetSet(ts: seq<Transition>): set<nat>
  {
    if ts == [] then {} else (set x | x in ts[0].targets) + TargetSet(ts[1..])
  }

  /** The effect of `State.AddTransition` on a transition list: `target` goes to the end
      of `symbol`'s list, a new (empty) list being created at the end first when the
      symbol is absent; every other symbol keeps its list. */
  function WithTransition(ts: seq<Transition>, symbol: char, target: nat): seq<Transition>
  {
    if ts == [] then [Transition(symbol, [target])]
    else if ts[0].symbol == symbol then [ts[0].(targets := ts[0].targets + [target])] + ts[1..]
    else [ts[0]] + WithTransition(ts[1..], symbol, target)
  }

  /** `AddTransition` seen through the label order: a label seen for the first time is
      appended, otherwise the order is unchanged. */
  lemma {:induction false} WithTransitionLabels(ts: seq<Transition>, symbol: char, target: nat)
    ensures Labels(WithTransition(ts, symbol, target)) ==
            if symbol in Labels(ts) then Labels(ts) else Labels(ts) + [symbol]
    ensures |WithTransition(ts, symbol, target)| == |ts| + (if symbol in Labels(ts) then 0 else 1)
  {
    if ts != [] && ts[0].symbol != symbol {
      var r := WithTransition(ts, symbol, target);
      WithTransitionLabels(ts[1..], symbol, target);
      assert r[1..] == WithTransition(ts[1..], symbol, target);
    }
  }

  /** `AddTransition` adds exactly its destination to the set of all destinations. */
  lemma {:induction false} WithTransitionTargetSet(ts: seq<Transition>, symbol: char, target: nat)
    ensures TargetSet(WithTransition(ts, symbol, target)) == TargetSet(ts) + {target}
  {
    if ts == [] {
    } else if ts[0].symbol == symbol {
      var r := WithTransition(ts, symbol, target);
      assert r[1..] == ts[1..];
    } else {
      var r := WithTransition(ts, symbol, target);
      WithTransitionTargetSet(ts[1..], symbol, target);
      assert r[1..] == WithTransition(ts[1..], symbol, target);
    }
  }

  /** `AddTransition` seen through `Targets`: the label's list gains `target` at its
      end, every other label's list is unchanged. */
  lemma {:induction false} WithTransitionTargets(ts: seq<Transition>, symbol: char, target: nat, l: char)
    ensures Targets(WithTransition(ts, symbol, target), l) == Targets(ts, l) + (if l == symbol then [target] else [])
  {
    if ts != [] && ts[0].symbol != symbol {
      WithTransitionTargets(ts[1..], symbol, target, l);
      assert WithTransition(ts, symbol, target)[1..] == WithTransition(ts[1..], symbol, target);
    }
  }

  /** Adding under the only label of a one-entry list extends that entry's list. */
  lemma WithTransitionOnto(l: char, xs: seq<nat>, t: nat)
    ensures WithTransition([Transition(l, xs)], l, t) == [Transition(l, xs + [t])]
  {
    assert [Transition(l, xs)][1..] == [];
  }

  lemma {:induction false} LabelsIndex(ts: seq<Transition>, k: nat)
    requires k < |ts|
    ensures |Labels(ts)| == |ts| && Labels(ts)[k] == ts[k].symbol
  {
    if k > 0 {
      LabelsIndex(ts[1..], k - 1);
    } else if |ts| > 1 {
      LabelsIndex(ts[1..], 0);
    }
  }

  /** Distinct labels in, distinct labels out: the transition list stays a map. */
  lemma WithTransitionDistinct(ts: seq<Transition>, symbol: char, target: nat)
    requires DistinctLabels(ts)
    ensures DistinctLabels(WithTransition(ts, symbol, target))
  {
    var r := WithTransition(ts, symbol, target);
    WithTransitionLabels(ts, symbol, target);
    forall j, k | 0 <= j < k < |r|
      ensures r[j].symbol != r[k].symbol
    {
      LabelsIndex(r, j);
      LabelsIndex(r, k);
      if k < |ts| {
        LabelsIndex(ts, j);
        LabelsIndex(ts, k);
      } else {
        LabelsIndex(ts, j);
        assert Labels(r) == Labels(ts) + [symbol];
      }
    }
  }

  /** With distinct labels, the list at position k is the one `Targets` finds. */
  lemma {:induction false} TargetsAt(ts: seq<Transition>, k: nat)
    requires DistinctLabels(ts) && k < |ts|
    ensures Targets(ts, ts[k].symbol) == ts[k].targets
  {
    if k > 0 {
      TargetsAt(ts[1..], k - 1);
    }
  }

  /** A symbol that does not occur has no destinations. */
  lemma {:induction false} TargetsAbsent(ts: seq<Transition>, symbol: char)
    requires symbol !in Labels(ts)
    ensures Targets(ts, symbol) == []
  {
    if ts != [] {
      TargetsAbsent(ts[1..], symbol);
    }
  }

  /** Every destination of the list at position k is in the target set. */
  lemma {:induction false} TargetSetHas(ts: seq<Transition>, k: nat, x: nat)
    requires k < |ts| && x in ts[k].targets
    ensures x in TargetSet(ts)
  {
    if k > 0 {
      TargetSetHas(ts[1..], k - 1, x);
    }
  }

  /** A state fits in an arena of n states when its labels are distinct and all of
      its destinations exist. */
  ghost predicate StateFits(s: State, n: nat)
  {
    DistinctLabels(s.transitions) && forall x :: x in TargetSet(s.transitions) ==> x < n
  }

  ghost predicate WellFormed(a: seq<State>)
  {
    forall i :: 0 <= i < |a| ==> StateFits(a[i], |a|)
  }

  /** `a[from].AddTransition(symbol, to)`. */
  function AddEdge(a: seq<State>, from: nat, symbol: char, to: nat): (r: seq<State>)
    requires from < |a|
    ensures |r| == |a|
  {
    a[from := a[from].(transitions := WithTransition(a[from].transitions, symbol, to))]
  }

  /** `a[i].final = b`. */
  function SetFinal(a: seq<State>, i: nat, b: bool): (r: seq<State>)
    requires i < |a|
    ensures |r| == |a|
  {
    a[i := a[i].(final := b)]
  }

  lemma AddEdgeWellFormed(a: seq<State>, from: nat, symbol: char, to: nat)
    requires WellFormed(a) && from < |a| && to < |a|
    ensures WellFormed(AddEdge(a, from, symbol, to))
  {
    WithTransitionDistinct(a[from].transitions, symbol, to);
    WithTransitionTargetSet(a[from].transitions, symbol, to);
  }

  lemma SetFinalWellFormed(a: seq<State>, i: nat, b: bool)
    requires WellFormed(a) && i < |a|
    ensures WellFormed(SetFinal(a, i, b))
  {
  }

  lemma AppendWellFormed(a: seq<State>)
    requires WellFormed(a)
    ensures WellFormed(a + [NewState(), NewState()])
  {
    var b := a + [NewState(), NewState()];
    forall i | 0 <= i < |b|
      ensures StateFits(b[i], |b|)
    {
      if i < |a| {
        assert StateFits(a[i], |a|);
      }
    }
  }
}
