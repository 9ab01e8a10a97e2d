/** `NFAConstructor`: the object that owns every state it creates. Its states live in the
    arena `states` (a state object is its index there); `stateCounter` is `_stateCounter`,
    `currentStateId` is `_currentStateId` and `outputFinalStates` is the public list of
    final flags. The construction methods are proved to have exactly the effect of the
    pure definitions in `Thompson` and `Evaluator`, where the properties themselves are
    proved. The numbering methods are proved to keep the walk invariant of `Traversal`,
    and the ids and rows they hand out to follow its reference walk `DfsOrder`. */
module Construction {
  import opened Options
  import opened Graph
  import opened Thompson
  import opened Evaluator
  import opened Table
  import opened Traversal

  class NFAConstructor {
    var states: seq<State>
    var stateCounter: nat
    var currentStateId: int
    var outputFinalStates: seq<bool>
    /** The arena indices of the numbered states, in numbering order: the state with id k
        is `numbered[k]`. */
    ghost var numbered: seq<nat>

    /** The counter counts the created states, and every edge leads to a created state. */
    ghost predicate Valid()
      reads this
    {
      stateCounter == |states| && WellFormed(states)
    }

    constructor ()
      ensures Valid() && states == [] && currentStateId == 0 && outputFinalStates == [] && numbered == []
    {
      states := [];
      stateCounter := 0;
      currentStateId := 0;
      outputFinalStates := [];
      numbered := [];
    }

    /** A new state, counted. */
    method CreateState() returns (s: nat)
      requires Valid()
      modifies this
      ensures Valid()
      ensures s == old(|states|) && states == old(states) + [NewState()]
      ensures stateCounter == old(stateCounter) + 1
      ensures unchanged(this`currentStateId, this`outputFinalStates, this`numbered)
    {
      stateCounter := stateCounter + 1;
      s := |states|;
      states := states + [NewState()];
      assert forall i :: 0 <= i < s ==> states[i] == old(states)[i];
      assert forall i :: 0 <= i < s ==> StateFits(old(states)[i], s);
    }

    /** The number of states created so far. */
    method GetStateCount() returns (n: nat)
      requires Valid()
      ensures n == |states|
    {
      n := stateCounter;
    }

    /** `from.AddTransition(symbol, to)`: `to` joins the end of `symbol`'s destination list
        of `from`, which is created empty at the end of the map first if missing. */
    method AddTransition(from: nat, symbol: char, to: nat)
      requires Valid() && from < |states| && to < |states|
      modifies this
      ensures Valid()
      ensures states == AddEdge(old(states), from, symbol, to)
      ensures unchanged(this`stateCounter, this`currentStateId, this`outputFinalStates, this`numbered)
    {
      AddEdgeWellFormed(states, from, symbol, to);
      var s := states[from];
      states := states[from := s.(transitions := WithTransition(s.transitions, symbol, to))];
    }

    /** `state.final = b`. */
    method MarkFinal(i: nat, b: bool)
      requires Valid() && i < |states|
      modifies this
      ensures Valid()
      ensures states == SetFinal(old(states), i, b)
      ensures unchanged(this`stateCounter, this`currentStateId, this`outputFinalStates, this`numbered)
    {
      SetFinalWellFormed(states, i, b);
      states := states[i := states[i].(final := b)];
    }

    /** `CreateSymbolNFA(c)`: two states, the end one final, joined by `c` (ε for `e`). */
    method CreateSymbolNFA(c: char) returns (r: Fragment)
      requires Valid()
      modifies this
      ensures Valid()
      ensures (states, r) == SymbolOp(old(states), c)
      ensures unchanged(this`currentStateId, this`outputFinalStates, this`numbered)
    {
      var symbol := c;
      if symbol == 'e' {
        symbol := Epsilon;
      }
      var start := CreateState();
      var end := CreateState();
      assert states == old(states) + [NewState(), NewState()];
      MarkFinal(end, true);
      AddTransition(start, symbol, end);
      r := Fragment(start, end);
    }

    /** `Concatenate(first, second)`. */
    method Concatenate(first: Fragment, second: Fragment) returns (r: Fragment)
      requires Valid() && first.end < |states| && second.start < |states|
      modifies this
      ensures Valid()
      ensures (states, r) == ConcatOp(old(states), first, second)
      ensures unchanged(this`stateCounter, this`currentStateId, this`outputFinalStates, this`numbered)
    {
      AddTransition(first.end, Epsilon, second.start);
      MarkFinal(first.end, false);
      r := Fragment(first.start, second.end);
    }

    /** `Union(first, second)`. */
    method Union(first: Fragment, second: Fragment) returns (r: Fragment)
      requires Valid()
      requires first.start < |states| && first.end < |states| && second.start < |states| && second.end < |states|
      modifies this
      ensures Valid()
      ensures (states, r) == UnionOp(old(states), first, second)
      ensures unchanged(this`currentStateId, this`outputFinalStates, this`numbered)
    {
      var start := CreateState();
      var end := CreateState();
      assert states == old(states) + [NewState(), NewState()];
      MarkFinal(end, true);
      MarkFinal(second.end, false);
      MarkFinal(first.end, false);
      AddTransition(start, Epsilon, first.start);
      AddTransition(start, Epsilon, second.start);
      AddTransition(first.end, Epsilon, end);
      AddTransition(second.end, Epsilon, end);
      r := Fragment(start, end);
    }

    /** `Star(nfa)`. */
    method Star(nfa: Fragment) returns (r: Fragment)
      requires Valid() && nfa.start < |states| && nfa.end < |states|
      modifies this
      ensures Valid()
      ensures (states, r) == StarOp(old(states), nfa)
      ensures unchanged(this`currentStateId, this`outputFinalStates, this`numbered)
    {
      var start := CreateState();
      var end := CreateState();
      assert states == old(states) + [NewState(), NewState()];
      MarkFinal(end, true);
      MarkFinal(nfa.end, false);
      AddTransition(start, Epsilon, nfa.start);
      AddTransition(start, Epsilon, end);
      AddTransition(nfa.end, Epsilon, nfa.start);
      AddTransition(nfa.end, Epsilon, end);
      r := Fragment(start, end);
    }

    /** `Plus(nfa)`. */
    method Plus(nfa: Fragment) returns (r: Fragment)
      requires Valid() && nfa.start < |states| && nfa.end < |states|
      modifies this
      ensures Valid()
      ensures (states, r) == PlusOp(old(states), nfa)
      ensures unchanged(this`currentStateId, this`outputFinalStates, this`numbered)
    {
      var start := CreateState();
      var end := CreateState();
      assert states == old(states) + [NewState(), NewState()];
      MarkFinal(end, true);
      MarkFinal(nfa.end, false);
      AddTransition(start, Epsilon, nfa.start);
      AddTransition(nfa.end, Epsilon, nfa.start);
      AddTransition(nfa.end, Epsilon, end);
      r := Fragment(start, end);
    }

    /** `OperatorsHandler(stack, operators)`: pops the top operator and reduces the
        operand stack with it. The ghost `trees` are the parse trees whose construction
        on `base` produced the current arena and operand stack; the reduction is the one
        `Evaluator.Apply` makes on those trees. `None` is the program's empty-stack
        exception. */
    method OperatorsHandler(stack: seq<Fragment>, operators: seq<char>, ghost trees: seq<Re>, ghost base: seq<State>)
      returns (r: Option<(seq<Fragment>, seq<char>)>)
      requires Valid() && |operators| > 0 && (states, stack) == BuildSeq(trees, base)
      modifies this
      ensures Valid()
      ensures unchanged(this`currentStateId, this`outputFinalStates, this`numbered)
      ensures var next := Apply(Config(trees, operators));
        r.None? == next.None? &&
        (r.Some? ==> r.value.1 == next.value.ops && (states, r.value.0) == BuildSeq(next.value.operands, base))
    {
      var head := operators[|operators| - 1];
      var ops := operators[..|operators| - 1];
      var n := |stack|;
      if head == '.' || head == '|' {
        if n < 2 {
          return None;
        }
        var s := PopTwoAndPush(head, stack, trees, base);
        r := Some((s, ops));
      } else if head == '*' || head == '+' {
        if n < 1 {
          return None;
        }
        var s := PopOneAndPush(head, stack, trees, base);
        r := Some((s, ops));
      } else {
        r := Some((stack, ops));
      }
    }

    /** The `.` and `|` branches of `OperatorsHandler`: the earlier of the top two
        fragments is `first`. */
    method PopTwoAndPush(head: char, stack: seq<Fragment>, ghost trees: seq<Re>, ghost base: seq<State>)
      returns (s: seq<Fragment>)
      requires Valid() && (head == '.' || head == '|') && |stack| >= 2
      requires (states, stack) == BuildSeq(trees, base)
      modifies this
      ensures Valid()
      ensures unchanged(this`currentStateId, this`outputFinalStates, this`numbered)
      ensures var n := |trees|;
        var t := if head == '.' then Cat(trees[n - 2], trees[n - 1]) else Alt(trees[n - 2], trees[n - 1]);
        (states, s) == BuildSeq(trees[..n - 2] + [t], base)
    {
      var n := |stack|;
      var second := stack[n - 1];
      var first := stack[n - 2];
      BuildSeqBinary(trees, base, head == '.');
      var f;
      if head == '.' {
        f := Concatenate(first, second);
      } else {
        f := Union(first, second);
      }
      s := stack[..n - 2] + [f];
    }

    /** The `*` and `+` branches of `OperatorsHandler`. */
    method PopOneAndPush(head: char, stack: seq<Fragment>, ghost trees: seq<Re>, ghost base: seq<State>)
      returns (s: seq<Fragment>)
      requires Valid() && (head == '*' || head == '+') && |stack| >= 1
      requires (states, stack) == BuildSeq(trees, base)
      modifies this
      ensures Valid()
      ensures unchanged(this`currentStateId, this`outputFinalStates, this`numbered)
      ensures var n := |trees|;
        var t := if head == '*' then Thompson.Star(trees[n - 1]) else Thompson.Plus(trees[n - 1]);
        (states, s) == BuildSeq(trees[..n - 1] + [t], base)
    {
      var n := |stack|;
      var nfa := stack[n - 1];
      BuildSeqUnary(trees, base, head == '*');
      var f;
      if head == '*' {
        f := Star(nfa);
      } else {
        f := Plus(nfa);
      }
      s := stack[..n - 1] + [f];
    }

    /** `BuildNFA(regex)`: one scan with an operand stack and an operator stack, then a
        drain. The result is Thompson's construction of the tree `Evaluator.Parse` reads
        from the input, built on top of the states that already existed; `None` is the
        program's empty-stack exception, raised exactly on the inputs `Parse` rejects. */
    method BuildNFA(regex: string) returns (r: Option<Fragment>)
      requires Valid()
      modifies this
      ensures Valid()
      ensures unchanged(this`currentStateId, this`outputFinalStates, this`numbered)
      ensures r.Some? <==> Parse(regex).Some?
      ensures r.Some? ==> (states, r.value) == Build(Parse(regex).value, old(states))
    {
      var scanned;
      ghost var trees;
      scanned, trees := ScanAll(regex);
      if scanned.None? {
        return None;
      }
      var stack, operators := scanned.value.0, scanned.value.1;
      ParseOfDrain(regex, Config(trees, operators));
      var next;
      next, trees := DrainOperators(stack, operators, trees, old(states));
      if next.None? {
        return None;
      }
      stack := next.value;
      if stack == [] {
        return None;
      }
      BuildSeqSingle(Parse(regex).value, old(states));
      r := Some(stack[|stack| - 1]);
    }

    /** The scan loop of `BuildNFA`: each character in order, as `Evaluator.Run` reads
        it; `None` is an empty-stack exception raised during the scan. */
    method ScanAll(regex: string) returns (r: Option<(seq<Fragment>, seq<char>)>, ghost trees: seq<Re>)
      requires Valid()
      modifies this
      ensures Valid()
      ensures unchanged(this`currentStateId, this`outputFinalStates, this`numbered)
      ensures r.None? <==> Run(regex, |regex|).None?
      ensures r.Some? ==> Run(regex, |regex|) == Some(Config(trees, r.value.1)) &&
                          (states, r.value.0) == BuildSeq(trees, old(states))
    {
      var stack: seq<Fragment> := [];
      var operators: seq<char> := [];
      trees := [];
      var i := 0;
      while i < |regex|
        invariant i <= |regex| && Valid()
        invariant unchanged(this`currentStateId, this`outputFinalStates, this`numbered)
        invariant Run(regex, i) == Some(Config(trees, operators))
        invariant (states, stack) == BuildSeq(trees, old(states))
      {
        RunNext(regex, i);
        var next;
        next, trees := ScanCharacter(regex, i, stack, operators, trees, old(states));
        if next.None? {
          RunStuck(regex, i + 1, |regex|);
          return None, trees;
        }
        stack, operators := next.value.0, next.value.1;
        i := i + 1;
      }
      r := Some((stack, operators));
    }

    /** The `)` branch of `BuildNFA`: reduce until '(' is on top of the operator stack,
        then pop it; `None` when the operator stack runs out first or a reduction fails. */
    method CloseParenthesis(stack: seq<Fragment>, operators: seq<char>, ghost trees: seq<Re>, ghost base: seq<State>)
      returns (r: Option<(seq<Fragment>, seq<char>)>, ghost after: seq<Re>)
      requires Valid() && (states, stack) == BuildSeq(trees, base)
      modifies this
      ensures Valid()
      ensures unchanged(this`currentStateId, this`outputFinalStates, this`numbered)
      ensures var done := CloseGroup(Config(trees, operators));
        r.None? == done.None? &&
        (r.Some? ==> Config(after, r.value.1) == done.value && (states, r.value.0) == BuildSeq(after, base))
    {
      var s, ops := stack, operators;
      after := trees;
      while ops == [] || ops[|ops| - 1] != '('
        invariant Valid()
        invariant unchanged(this`currentStateId, this`outputFinalStates, this`numbered)
        invariant CloseGroup(Config(after, ops)) == CloseGroup(Config(trees, operators))
        invariant (states, s) == BuildSeq(after, base)
        decreases |ops|
      {
        if ops == [] {
          return None, after;
        }
        var next := OperatorsHandler(s, ops, after, base);
        if next.None? {
          return None, after;
        }
        after := Apply(Config(after, ops)).value.operands;
        s, ops := next.value.0, next.value.1;
      }
      r := Some((s, ops[..|ops| - 1]));
    }

    /** The final loop of `BuildNFA`: reduce until the operator stack is empty. */
    method DrainOperators(stack: seq<Fragment>, operators: seq<char>, ghost trees: seq<Re>, ghost base: seq<State>)
      returns (r: Option<seq<Fragment>>, ghost after: seq<Re>)
      requires Valid() && (states, stack) == BuildSeq(trees, base)
      modifies this
      ensures Valid()
      ensures unchanged(this`currentStateId, this`outputFinalStates, this`numbered)
      ensures var done := Drain(Config(trees, operators));
        r.None? == done.None? &&
        (r.Some? ==> after == done.value.operands && (states, r.value) == BuildSeq(after, base))
    {
      var s, ops := stack, operators;
      after := trees;
      while ops != []
        invariant Valid()
        invariant unchanged(this`currentStateId, this`outputFinalStates, this`numbered)
        invariant Drain(Config(after, ops)) == Drain(Config(trees, operators))
        invariant (states, s) == BuildSeq(after, base)
        decreases |ops|
      {
        var next := OperatorsHandler(s, ops, after, base);
        if next.None? {
          return None, after;
        }
        after := Apply(Config(after, ops)).value.operands;
        s, ops := next.value.0, next.value.1;
      }
      r := Some(s);
    }

    /** One iteration of the scan of `BuildNFA`, on `regex[i]`. */
    method ScanCharacter(regex: string, i: nat, stack: seq<Fragment>, operators: seq<char>, ghost trees: seq<Re>, ghost base: seq<State>)
      returns (r: Option<(seq<Fragment>, seq<char>)>, ghost after: seq<Re>)
      requires i < |regex| && Valid() && (states, stack) == BuildSeq(trees, base)
      modifies this
      ensures Valid()
      ensures unchanged(this`currentStateId, this`outputFinalStates, this`numbered)
      ensures var next := Step(regex, i, Config(trees, operators));
        r.None? == next.None? &&
        (r.Some? ==> Config(after, r.value.1) == next.value && (states, r.value.0) == BuildSeq(after, base))
    {
      var c := regex[i];
      var s, ops := stack, operators;
      after := trees;
      if c == '(' {
        if i - 1 >= 0 && regex[i - 1] != '(' && regex[i - 1] != '|' {
          ops := ops + ['.'];
        }
        ops := ops + ['('];
        assert operators + [] == operators;
      } else if c == ')' {
        r, after := CloseParenthesis(stack, operators, trees, base);
        return;
      } else if c == '|' || c == '*' || c == '+' {
        ops := ops + [c];
        if c == '*' || c == '+' {
          var next := OperatorsHandler(s, ops, after, base);
          if next.None? {
            return None, after;
          }
          after := Apply(Config(after, ops)).value.operands;
          s, ops := next.value.0, next.value.1;
        }
      } else {
        var f := CreateSymbolNFA(c);
        BuildSeqPush(trees, Sym(c), base);
        s := s + [f];
        after := after + [Sym(c)];
        if i - 1 >= 0 && regex[i - 1] != '(' && regex[i - 1] != '|' {
          ops := ops + ['.'];
        }
      }
      r := Some((s, ops));
    }

    // -------------------------------------------------------------------------
    // Numbering the states and writing the transition table.

    /** The transition table of the automaton that starts at `nfa.start`, on the first
        call: ids are handed out depth-first from 0 in the order states are first met as
        destinations, `outputFinalStates` holds the final flag of each numbered id, and
        the cell of a label and an id names that state's destinations under the label,
        in registration order. */
    method ConvertToTransitionList(nfa: Fragment) returns (table: seq<Row>)
      requires Valid() && nfa.start < |states|
      requires currentStateId == 0 && outputFinalStates == [] && numbered == []
      requires forall v :: 0 <= v < |states| ==> states[v].id == -1
      modifies this`states, this`currentStateId, this`numbered, this`outputFinalStates
      ensures Valid() && SameGraph(old(states), states)
      ensures Numbered(states, numbered) && currentStateId == |numbered| - 1
      ensures |numbered| >= 1 && numbered[0] == nfa.start && Discovered(states, numbered)
      ensures forall k :: 0 <= k < |numbered| ==> forall t :: t in TargetSet(states[numbered[k]].transitions) ==> states[t].id >= 0
      ensures Shaped(table, |states|) && |outputFinalStates| == |states|
      ensures forall k :: 0 <= k < |states| ==> outputFinalStates[k] == (k < |numbered| && states[numbered[k]].final)
      ensures forall l, k :: 0 <= k < |numbered| ==>
        CellAt(table, l, k) == CellText(IdsOf(states, Targets(states[numbered[k]].transitions, l)))
      ensures forall l, k :: |numbered| <= k ==> CellAt(table, l, k) == ""
      ensures numbered == DfsOrder(Edges(old(states)), nfa.start).numbered
      ensures RowLabels(table) == DfsOrder(Edges(old(states)), nfa.start).labels
    {
      FillFlags();
      NumberStart(nfa.start);
      ghost var started := states;
      assert TrailOf(numbered, {}, []) == Trail(Tally([nfa.start], []), {});
      var visited: set<int>;
      visited, table := TraverseState(nfa.start, {}, [], {});
      SameGraphTrans(old(states), started, states);
      SameGraphEdges(old(states), started);
      ExtendsTrans([nfa.start], numbered, numbered);
      WalkEnd(states, numbered, outputFinalStates, table, visited);
    }

    /** The first loop of `ConvertToTransitionList`: one false flag per created state. */
    method FillFlags()
      requires Valid()
      modifies this`outputFinalStates
      ensures outputFinalStates == old(outputFinalStates) + seq(stateCounter, _ => false)
    {
      ghost var before := outputFinalStates;
      var i := 0;
      while i < stateCounter
        invariant 0 <= i <= stateCounter
        invariant outputFinalStates == before + seq(i, _ => false)
      {
        outputFinalStates := outputFinalStates + [false];
        i := i + 1;
      }
    }

    /** The start state gets id 0 (`_currentStateId` on the first call), which begins the
        walk: nothing is visited and the table is empty. */
    method NumberStart(start: nat)
      requires Valid() && start < |states| && |outputFinalStates| == |states|
      requires currentStateId == 0 && numbered == []
      requires forall v :: 0 <= v < |states| ==> states[v].id == -1
      requires forall k :: 0 <= k < |outputFinalStates| ==> !outputFinalStates[k]
      modifies this`states, this`numbered
      ensures Valid() && SameGraph(old(states), states) && currentStateId == |numbered| - 1
      ensures start < |states| && states[start].id >= 0 && numbered == [start]
      ensures Walk(states, numbered, outputFinalStates, [], {}, -1, {})
    {
      WalkStart(states, start, outputFinalStates);
      SameGraphWellFormed(states, states[start := states[start].(id := currentStateId)]);
      states := states[start := states[start].(id := currentStateId)];
      numbered := [start];
    }

    /** Visits the state v (skipping it when its id is visited already): records its
        flag and its cells, then visits each destination in order. On return v's id and
        every id visited before are visited, and the walk invariant is kept. */
    method TraverseState(v: nat, visited: set<int>, table: seq<Row>, ghost stack: set<int>)
      returns (visited': set<int>, table': seq<Row>)
      requires Valid() && currentStateId == |numbered| - 1
      requires v < |states| && states[v].id >= 0
      requires Walk(states, numbered, outputFinalStates, table, visited, -1, stack)
      modifies this`states, this`currentStateId, this`numbered, this`outputFinalStates
      ensures Valid() && currentStateId == |numbered| - 1
      ensures SameGraph(old(states), states) && Extends(old(numbered), numbered)
      ensures Walk(states, numbered, outputFinalStates, table', visited', -1, stack)
      ensures visited <= visited' && states[v].id in visited'
      ensures TrailOf(numbered, visited', table') == DfsVisit(Edges(old(states)), TrailOf(old(numbered), visited, table), v)
      decreases Unvisited(visited, |states|), 0
    {
      var id := states[v].id;
      SeenOfHas(states, numbered, visited, v);
      if id in visited {
        ExtendsTrans(numbered, numbered, numbered);
        return visited, table;
      }
      ghost var a0, n0 := states, numbered;
      assert forall x :: x in visited ==> 0 <= x < |n0| by {
        assert forall x :: x in visited ==> Recorded(a0, n0, outputFinalStates, table, x);
      }
      table' := EnterState(v, id, visited, table, stack);
      SeenOfGrow(n0, numbered, visited, id);
      visited' := visited + {id};
      assert id in Unvisited(visited, |a0|) && id !in Unvisited(visited', |a0|);
      ghost var a1, n1 := states, numbered;
      visited', table' := VisitDestinations(v, id, visited', table', stack);
      ExtendsTrans(n0, n1, numbered);
      SameGraphTrans(a0, a1, states);
      SameGraphEdges(a0, a1);
      assert numbered[id] == v;
    }

    /** The first part of a visit to the state v, whose id is not visited yet: its final
        flag is written to `outputFinalStates` and its cells are recorded. Afterwards
        its id counts as visited and is on the walk's stack. */
    method EnterState(v: nat, id: int, visited: set<int>, table: seq<Row>, ghost stack: set<int>)
      returns (table': seq<Row>)
      requires Valid() && currentStateId == |numbered| - 1
      requires v < |states| && states[v].id == id && id >= 0 && id !in visited
      requires Walk(states, numbered, outputFinalStates, table, visited, -1, stack)
      modifies this`states, this`currentStateId, this`numbered, this`outputFinalStates
      ensures Valid() && currentStateId == |numbered| - 1
      ensures SameGraph(old(states), states) && Extends(old(numbered), numbered)
      ensures id < |numbered| && numbered[id] == v
      ensures Walk(states, numbered, outputFinalStates, table', visited + {id}, -1, stack + {id})
      ensures TallyOf(numbered, table') ==
              NoteEntries(TallyOf(old(numbered), table), old(states)[v].transitions, |old(states)[v].transitions|)
    {
      WalkBegin(states, numbered, outputFinalStates, table, visited, id, stack);
      outputFinalStates := outputFinalStates[id := states[v].final];
      table' := RecordTransitions(v, id, table);
      WalkEnter(old(states), old(numbered), outputFinalStates, table, visited, id, stack, states, numbered, table');
    }

    /** The second loop of `TraverseState`: visits the destinations of state v (whose id
        k is visited and recorded), entry by entry and in list order. Afterwards all of
        them are visited and the call for k is complete. */
    method VisitDestinations(v: nat, k: int, visited: set<int>, table: seq<Row>, ghost stack: set<int>)
      returns (visited': set<int>, table': seq<Row>)
      requires Valid() && currentStateId == |numbered| - 1
      requires 0 <= k < |numbered| && numbered[k] == v && k in visited
      requires Walk(states, numbered, outputFinalStates, table, visited, -1, stack + {k})
      modifies this`states, this`currentStateId, this`numbered, this`outputFinalStates
      ensures Valid() && currentStateId == |numbered| - 1
      ensures SameGraph(old(states), states) && Extends(old(numbered), numbered)
      ensures Walk(states, numbered, outputFinalStates, table', visited', -1, stack)
      ensures visited <= visited'
      ensures TrailOf(numbered, visited', table') ==
              DfsEntries(Edges(old(states)), TrailOf(old(numbered), visited, table), old(states)[v].transitions,
                         |old(states)[v].transitions|)
      decreases Unvisited(visited, |states|), 4
    {
      ghost var entry, before := states, numbered;
      NumberedBound(states, numbered);
      var ts := states[v].transitions;
      ghost var trace := EntriesTrace(Edges(entry), TrailOf(before, visited, table), ts, |ts|);
      assert trace[0] == DfsEntries(Edges(entry), TrailOf(before, visited, table), ts, 0);
      ExtendsTrans(before, numbered, numbered);
      visited', table' := visited, table;
      var j := 0;
      while j < |ts|
        invariant VisitingEntries(v, k, j, visited', table', stack, visited, entry, before, ts)
        invariant TrailOf(numbered, visited', table') == trace[j]
      {
        visited', table' := VisitEntry(v, k, j, visited', table', stack, visited, entry, before, ts,
                                       TrailOf(before, visited, table), trace);
        j := j + 1;
      }
      assert trace[|ts|] == DfsEntries(Edges(entry), TrailOf(before, visited, table), ts, |ts|);
      ExtendsTrans(before, numbered, numbered);
      AllVisitedClosed(states, numbered, visited', k);
      WalkReturn(states, numbered, outputFinalStates, table', visited', k, stack);
    }

    /** The invariant of the second visiting loop after j entries of state v (whose id is
        k and whose transition list is ts): the walk invariant holds with k on the stack,
        the graph is as at `entry`, the numbering extends `before`, and every destination
        of the first j entries is visited. */
    ghost predicate VisitingEntries(v: nat, k: int, j: nat, visited: set<int>, table: seq<Row>, stack: set<int>,
                                    start: set<int>, entry: seq<State>, before: seq<nat>, ts: seq<Transition>)
      reads this
    {
      && Valid() && currentStateId == |numbered| - 1
      && 0 <= k < |numbered| && numbered[k] == v && k in start && start <= visited
      && v < |entry| && entry[v].transitions == ts && j <= |ts|
      && SameGraph(entry, states) && Extends(before, numbered)
      && Walk(states, numbered, outputFinalStates, table, visited, -1, stack + {k})
      && EntriesVisited(states, ts, j, visited)
    }

    /** One pass of the second visiting loop, stated as a step of its invariant: the
        destinations of entry j are visited, and the trail moves one entry along the
        reference walk's trace. */
    method VisitEntry(v: nat, k: int, j: nat, visited: set<int>, table: seq<Row>, ghost stack: set<int>,
                      ghost start: set<int>, ghost entry: seq<State>, ghost before: seq<nat>, ghost ts: seq<Transition>,
                      ghost tr0: Trail, ghost trace: seq<Trail>)
      returns (visited': set<int>, table': seq<Row>)
      requires VisitingEntries(v, k, j, visited, table, stack, start, entry, before, ts) && j < |ts|
      requires |trace| == |ts| + 1 && forall i {:trigger DfsEntries(Edges(entry), tr0, ts, i)} :: 0 <= i <= |ts| ==> trace[i] == DfsEntries(Edges(entry), tr0, ts, i)
      requires TrailOf(numbered, visited, table) == trace[j]
      modifies this`states, this`currentStateId, this`numbered, this`outputFinalStates
      ensures VisitingEntries(v, k, j + 1, visited', table', stack, start, entry, before, ts)
      ensures TrailOf(numbered, visited', table') == trace[j + 1]
      decreases Unvisited(start, |entry|), 3
    {
      UnvisitedShrinks(start, visited, |states|);
      ghost var prior, priorNumbered, priorOfs := states, numbered, outputFinalStates;
      visited', table' := VisitList(v, k, j, visited, table, stack + {k});
      ExtendsTrans(before, priorNumbered, numbered);
      SameGraphTrans(entry, prior, states);
      SameGraphEdges(entry, prior);
      EntriesTraceStep(Edges(entry), tr0, ts, trace, j);
      EntriesVisitedStep(prior, priorNumbered, priorOfs, table, visited, stack + {k},
                         states, numbered, visited', ts, j);
    }

    /** The invariant of the inner visiting loop after m destinations of entry j of state
        v (whose id is k): the walk invariant holds, the graph is as at `entry`, the
        numbering extends `before`, and the first m destinations are visited. */
    ghost predicate VisitingList(v: nat, k: int, j: nat, m: nat, visited: set<int>, table: seq<Row>,
                                 stack: set<int>, start: set<int>, entry: seq<State>, before: seq<nat>)
      reads this
    {
      && Valid() && currentStateId == |numbered| - 1
      && 0 <= k < |numbered| && numbered[k] == v && v < |states| && k in start && start <= visited
      && j < |states[v].transitions| && m <= |states[v].transitions[j].targets|
      && SameGraph(entry, states) && Extends(before, numbered)
      && Walk(states, numbered, outputFinalStates, table, visited, -1, stack)
      && VisitedUpTo(states, states[v].transitions[j].targets, m, visited)
    }

    /** The inner loop of the second loop: visits every destination in entry j of state
        v's transitions, in list order. */
    method VisitList(v: nat, k: int, j: nat, visited: set<int>, table: seq<Row>, ghost stack: set<int>)
      returns (visited': set<int>, table': seq<Row>)
      requires Valid() && currentStateId == |numbered| - 1
      requires 0 <= k < |numbered| && numbered[k] == v && k in visited && v < |states|
      requires j < |states[v].transitions|
      requires Walk(states, numbered, outputFinalStates, table, visited, -1, stack)
      modifies this`states, this`currentStateId, this`numbered, this`outputFinalStates
      ensures Valid() && currentStateId == |numbered| - 1
      ensures SameGraph(old(states), states) && Extends(old(numbered), numbered)
      ensures Walk(states, numbered, outputFinalStates, table', visited', -1, stack)
      ensures visited <= visited' && AllVisited(states, states[v].transitions[j].targets, visited')
      ensures TrailOf(numbered, visited', table') ==
              DfsTargets(Edges(old(states)), TrailOf(old(numbered), visited, table), old(states)[v].transitions[j].targets,
                         |old(states)[v].transitions[j].targets|)
      decreases Unvisited(visited, |states|), 2
    {
      var n := |states[v].transitions[j].targets|;
      ghost var xs, tr0 := states[v].transitions[j].targets, TrailOf(numbered, visited, table);
      ghost var trace := TargetsTrace(Edges(states), tr0, xs, |xs|);
      assert trace[0] == DfsTargets(Edges(states), tr0, xs, 0);
      ExtendsTrans(numbered, numbered, numbered);
      visited', table' := visited, table;
      var m := 0;
      while m < n
        invariant VisitingList(v, k, j, m, visited', table', stack, visited, old(states), old(numbered))
        invariant m <= n && n == |xs| && states[v].transitions[j].targets == xs
        invariant TrailOf(numbered, visited', table') == trace[m]
      {
        visited', table' := VisitTarget(v, k, j, m, visited', table', stack, visited, old(states), old(numbered),
                                        tr0, trace);
        m := m + 1;
      }
      assert trace[n] == DfsTargets(Edges(old(states)), tr0, xs, n);
    }

    /** One pass of the inner visiting loop, stated as a step of its invariant: the
        destination m of entry j is visited. */
    method VisitTarget(v: nat, k: int, j: nat, m: nat, visited: set<int>, table: seq<Row>, ghost stack: set<int>,
                       ghost start: set<int>, ghost entry: seq<State>, ghost before: seq<nat>,
                       ghost tr0: Trail, ghost trace: seq<Trail>)
      returns (visited': set<int>, table': seq<Row>)
      requires VisitingList(v, k, j, m, visited, table, stack, start, entry, before)
      requires m < |states[v].transitions[j].targets|
      requires var xs := states[v].transitions[j].targets;
        |trace| == |xs| + 1 && forall i {:trigger DfsTargets(Edges(entry), tr0, xs, i)} :: 0 <= i <= |xs| ==> trace[i] == DfsTargets(Edges(entry), tr0, xs, i)
      requires TrailOf(numbered, visited, table) == trace[m]
      modifies this`states, this`currentStateId, this`numbered, this`outputFinalStates
      ensures VisitingList(v, k, j, m + 1, visited', table', stack, start, entry, before)
      ensures |states| == |old(states)| && visited <= visited'
      ensures Edges(states) == Edges(old(states))
      ensures TrailOf(numbered, visited', table') ==
              DfsVisit(Edges(old(states)), TrailOf(old(numbered), visited, table), old(states)[v].transitions[j].targets[m])
      ensures TrailOf(numbered, visited', table') == trace[m + 1]
      decreases Unvisited(start, |entry|), 1
    {
      var targets := states[v].transitions[j].targets;
      var t := targets[m];
      UnvisitedShrinks(start, visited, |states|);
      assert |entry| == |states|;
      ChildNumbered(states, numbered, outputFinalStates, table, visited, stack, k, j, m);
      visited', table' := TraverseState(t, visited, table, stack);
      ExtendsTrans(before, old(numbered), numbered);
      SameGraphTrans(entry, old(states), states);
      AllVisitedGrow(old(states), old(numbered), old(outputFinalStates), table, visited, stack,
                     states, numbered, visited', targets, m);
      VisitedUpToStep(states, targets, m, visited');
      SameGraphEdges(old(states), states);
      SameGraphEdges(entry, old(states));
      TargetsTraceStep(Edges(entry), tr0, targets, trace, m);
    }

    /** The recording loop: every destination of state v (whose id is k), label by label
        and in list order, is numbered if new and registered in the cell of its label
        and id k. Afterwards every destination of v is numbered, each label's cell for k
        names v's destinations under it, and the cells of other ids are as they were. */
    method RecordTransitions(v: nat, k: nat, table: seq<Row>) returns (table': seq<Row>)
      requires Valid() && Numbered(states, numbered) && currentStateId == |numbered| - 1
      requires k < |numbered| && numbered[k] == v && Shaped(table, |states|)
      requires forall l :: CellAt(table, l, k) == ""
      modifies this`states, this`currentStateId, this`numbered
      ensures Valid() && Numbered(states, numbered) && currentStateId == |numbered| - 1
      ensures SameGraph(old(states), states) && Extends(old(numbered), numbered)
      ensures forall i :: |old(numbered)| <= i < |numbered| ==> numbered[i] in TargetSet(states[v].transitions)
      ensures Shaped(table', |states|) && forall l, i :: i != k ==> CellAt(table', l, i) == CellAt(table, l, i)
      ensures forall x :: x in TargetSet(states[v].transitions) ==> IdOf(states, x) >= 0
      ensures forall l :: CellAt(table', l, k) == CellText(IdsOf(states, Targets(states[v].transitions, l)))
      ensures TallyOf(numbered, table') == NoteEntries(TallyOf(old(numbered), table), states[v].transitions, |states[v].transitions|)
    {
      NumberedBound(states, numbered);
      ghost var entry, before := states, numbered;
      var ts := states[v].transitions;
      assert DistinctLabels(ts);
      table' := table;
      var j := 0;
      assert Progress(states, ts, table', k, 0, 0) by {
        assert ts[..0] == [];
      }
      while j < |ts|
        invariant 0 <= j <= |ts|
        invariant Valid() && Numbered(states, numbered) && currentStateId == |numbered| - 1
        invariant SameGraph(entry, states) && Extends(before, numbered)
        invariant forall i :: |before| <= i < |numbered| ==> numbered[i] in TargetSet(ts)
        invariant Shaped(table', |states|) && forall l, i :: i != k ==> CellAt(table', l, i) == CellAt(table, l, i)
        invariant Progress(states, ts, table', k, j, 0)
        invariant TallyOf(numbered, table') == NoteEntries(TallyOf(before, table), ts, j)
      {
        ghost var priorStates, priorNumbered := states, numbered;
        table' := RecordList(v, k, j, table');
        ExtendsTrans(before, priorNumbered, numbered);
        SameGraphTrans(entry, priorStates, states);
        forall i | |before| <= i < |numbered|
          ensures numbered[i] in TargetSet(ts)
        {
          if i >= |priorNumbered| {
            TargetSetHas(ts, j, numbered[i]);
          } else {
            assert numbered[i] == numbered[..|priorNumbered|][i];
          }
        }
        ProgressRow(states, ts, table', k, j);
        j := j + 1;
      }
      ProgressDone(states, ts, table', k);
    }

    /** The invariant of the inner recording loop after m destinations of entry j of
        state v: the arena is valid and numbered, only destinations of entry j were
        numbered since `before`, only the cells of id k changed since `original`, and the
        first m destinations are registered. */
    ghost predicate RecordingList(v: nat, k: nat, j: nat, m: nat, table: seq<Row>,
                                  entry: seq<State>, before: seq<nat>, original: seq<Row>)
      reads this
    {
      && Valid() && Numbered(states, numbered) && currentStateId == |numbered| - 1
      && k < |states| && v < |states| && j < |states[v].transitions| && m <= |states[v].transitions[j].targets|
      && SameGraph(entry, states) && Extends(before, numbered)
      && (forall i :: |before| <= i < |numbered| ==> numbered[i] in states[v].transitions[j].targets)
      && Shaped(table, |states|) && (forall l, i :: i != k ==> CellAt(table, l, i) == CellAt(original, l, i))
      && Progress(states, states[v].transitions, table, k, j, m)
    }

    /** The inner recording loop: every destination in entry j of state v's transitions,
        in list order, is registered under entry j's label in the cells of id k. */
    method RecordList(v: nat, k: nat, j: nat, table: seq<Row>) returns (table': seq<Row>)
      requires Valid() && Numbered(states, numbered) && currentStateId == |numbered| - 1
      requires k < |states| && v < |states| && j < |states[v].transitions| && Shaped(table, |states|)
      requires Progress(states, states[v].transitions, table, k, j, 0)
      modifies this`states, this`currentStateId, this`numbered
      ensures Valid() && Numbered(states, numbered) && currentStateId == |numbered| - 1
      ensures SameGraph(old(states), states) && Extends(old(numbered), numbered)
      ensures forall i :: |old(numbered)| <= i < |numbered| ==> numbered[i] in states[v].transitions[j].targets
      ensures Shaped(table', |states|) && forall l, i :: i != k ==> CellAt(table', l, i) == CellAt(table, l, i)
      ensures var ts := states[v].transitions; Progress(states, ts, table', k, j, |ts[j].targets|)
      ensures var e := states[v].transitions[j];
        TallyOf(numbered, table') == NoteTargets(TallyOf(old(numbered), table), e.symbol, e.targets, |e.targets|)
    {
      var n := |states[v].transitions[j].targets|;
      ghost var e, tally := states[v].transitions[j], TallyOf(numbered, table);
      ghost var trace := NoteTrace(tally, e.symbol, e.targets, |e.targets|);
      assert trace[0] == NoteTargets(tally, e.symbol, e.targets, 0);
      table' := table;
      var m := 0;
      while m < n
        invariant m <= n && RecordingList(v, k, j, m, table', old(states), old(numbered), table)
        invariant n == |states[v].transitions[j].targets| && states[v].transitions[j] == e
        invariant TallyOf(numbered, table') == trace[m]
      {
        table' := RegisterTarget(v, k, j, m, table', old(states), old(numbered), table, tally, trace);
        m := m + 1;
      }
      assert trace[n] == NoteTargets(tally, e.symbol, e.targets, n);
    }

    /** One pass of the inner recording loop, stated as a step of its invariant: the
        destination m of entry j is registered. */
    method RegisterTarget(v: nat, k: nat, j: nat, m: nat, table: seq<Row>,
                          ghost entry: seq<State>, ghost before: seq<nat>, ghost original: seq<Row>,
                          ghost tally: Tally, ghost trace: seq<Tally>)
      returns (table': seq<Row>)
      requires RecordingList(v, k, j, m, table, entry, before, original)
      requires m < |states[v].transitions[j].targets|
      requires var e := states[v].transitions[j];
        |trace| == |e.targets| + 1 &&
        forall i {:trigger NoteTargets(tally, e.symbol, e.targets, i)} ::
          0 <= i <= |e.targets| ==> trace[i] == NoteTargets(tally, e.symbol, e.targets, i)
      requires TallyOf(numbered, table) == trace[m]
      modifies this`states, this`currentStateId, this`numbered
      ensures RecordingList(v, k, j, m + 1, table', entry, before, original)
      ensures states[v].transitions[j] == old(states)[v].transitions[j]
      ensures var e := states[v].transitions[j];
        TallyOf(numbered, table') == Note(TallyOf(old(numbered), table), e.symbol, e.targets[m])
      ensures TallyOf(numbered, table') == trace[m + 1]
    {
      var ts := states[v].transitions;
      var t := ts[j].targets[m];
      TargetSetHas(ts, j, t);
      assert StateFits(states[v], |states|);
      table' := RecordEdge(k, ts[j].symbol, t, table);
      ProgressStep(old(states), states, ts, table, table', k, j, m);
      ExtendsTrans(before, old(numbered), numbered);
      SameGraphTrans(entry, old(states), states);
      forall i | |before| <= i < |numbered|
        ensures numbered[i] in ts[j].targets
      {
        if i < |old(numbered)| {
          assert numbered[i] == numbered[..|old(numbered)|][i];
        }
      }
      NoteTraceStep(tally, ts[j].symbol, ts[j].targets, trace, m);
    }

    /** One registration (the body of the recording loop): destination t of the state
        with id k, under `symbol`. A destination without an id gets the next one; the
        cell of the label and id k is extended by the destination's name. */
    method RecordEdge(k: nat, symbol: char, t: nat, table: seq<Row>) returns (table': seq<Row>)
      requires Valid() && Numbered(states, numbered) && currentStateId == |numbered| - 1
      requires k < |states| && t < |states| && Shaped(table, |states|)
      modifies this`states, this`currentStateId, this`numbered
      ensures Valid() && Numbered(states, numbered) && currentStateId == |numbered| - 1
      ensures SameGraph(old(states), states)
      ensures numbered == old(numbered) + (if old(states)[t].id == -1 then [t] else [])
      ensures forall x :: IdOf(old(states), x) >= 0 ==> IdOf(states, x) == IdOf(old(states), x)
      ensures IdOf(states, t) >= 0
      ensures Shaped(table', |states|)
      ensures forall l, j :: CellAt(table', l, j) ==
                (if l == symbol && j == k then Extend(CellAt(table, l, j), IdOf(states, t)) else CellAt(table, l, j))
      ensures TallyOf(numbered, table') == Note(TallyOf(old(numbered), table), symbol, t)
    {
      NumberedFresh(states, numbered, t);
      NumberTarget(t);
      table' := WriteCell(k, symbol, states[t].id, table);
    }

    /** A destination without an id gets the next one. */
    method NumberTarget(t: nat)
      requires Valid() && Numbered(states, numbered) && currentStateId == |numbered| - 1 && t < |states|
      modifies this`states, this`currentStateId, this`numbered
      ensures Valid() && Numbered(states, numbered) && currentStateId == |numbered| - 1
      ensures SameGraph(old(states), states)
      ensures numbered == old(numbered) + (if old(states)[t].id == -1 then [t] else [])
      ensures forall x :: IdOf(old(states), x) >= 0 ==> IdOf(states, x) == IdOf(old(states), x)
      ensures IdOf(states, t) >= 0
    {
      if states[t].id == -1 {
        RenumberNumbered(states, numbered, t);
        SameGraphWellFormed(states, states[t := states[t].(id := |numbered|)]);
        currentStateId := currentStateId + 1;
        states := states[t := states[t].(id := currentStateId)];
        numbered := numbered + [t];
      }
    }

    /** Registers the destination id in the cell of `symbol` and id k, first giving the
        label a row of empty cells when it has none. */
    method WriteCell(k: nat, symbol: char, id: int, table: seq<Row>) returns (table': seq<Row>)
      requires Shaped(table, stateCounter) && k < stateCounter
      ensures Shaped(table', stateCounter)
      ensures forall l, j :: CellAt(table', l, j) ==
                (if l == symbol && j == k then Extend(CellAt(table, l, j), id) else CellAt(table, l, j))
      ensures RowLabels(table') == if symbol in RowLabels(table) then RowLabels(table) else RowLabels(table) + [symbol]
    {
      RowIndexLabels(table, symbol);
      var row := RowIndex(table, symbol);
      var r: nat;
      table' := table;
      if row.None? {
        var cells := EmptyCells(stateCounter);
        assert cells == seq(stateCounter, _ => "");
        AppendRowAt(table, stateCounter, symbol);
        table' := table + [Row(symbol, cells)];
        assert RowLabels(table') == RowLabels(table) + [symbol];
        r := |table|;
      } else {
        r := row.value;
      }
      assert CellAt(table', symbol, k) == table'[r].cells[k];
      var name := Name(id);
      var cell := if table'[r].cells[k] == "" then name else table'[r].cells[k] + "," + name;
      SetCellAt(table', stateCounter, r, k, cell);
      ghost var labels := RowLabels(table');
      table' := table'[r := table'[r].(cells := table'[r].cells[k := cell])];
      assert RowLabels(table') == labels;
    }

    /** A row of n empty cells. */
    method EmptyCells(n: nat) returns (cells: seq<string>)
      ensures |cells| == n && forall i :: 0 <= i < n ==> cells[i] == ""
    {
      cells := [];
      var i := 0;
      while i < n
        invariant 0 <= i <= n && |cells| == i
        invariant forall p :: 0 <= p < i ==> cells[p] == ""
      {
        cells := cells + [""];
        i := i + 1;
      }
    }
  }

  /** The numbering order on `a|b`: the arena is a's states 0, 1, b's states 2, 3 and the
      union's start 4 and end 5. The start's two destinations get ids 1 and 2 before
      either is visited, then the walk goes depth first through a's branch (giving the
      shared end id 4) and only then through b's. The rows appear as ε, a, b. */
  lemma AltOrder()
    ensures Build(Alt(Sym('a'), Sym('b')), []).1 == Fragment(4, 5)
    ensures DfsOrder(Edges(Build(Alt(Sym('a'), Sym('b')), []).0), 4) == Tally([4, 0, 2, 1, 5, 3], [Epsilon, 'a', 'b'])
  {
    AltGraph();
    AltWalk();
  }

  /** The edges of the automaton of `a|b`. */
  lemma AltGraph()
    ensures Edges(Build(Alt(Sym('a'), Sym('b')), []).0) == AltEdges()
  {
    var g := AltEdges();
    var (a1, f) := SymbolOp([], 'a');
    var (a2, h) := SymbolOp(a1, 'b');
    assert f == Fragment(0, 1) && h == Fragment(2, 3) && |a2| == 4;
    assert a2[0].transitions == g[0] && a2[2].transitions == g[2];
    UnionEnds(a2, f, h);
    var a := UnionOp(a2, f, h).0;
    assert Build(Sym('a'), []) == (a1, f) && Build(Sym('b'), a1) == (a2, h);
    assert Build(Alt(Sym('a'), Sym('b')), []).0 == a;
    assert a[0].transitions == g[0] && a[2].transitions == g[2];
    assert a[4].transitions == g[4] && a[5].transitions == g[5];
  }

  /** Union on two operands whose ends have no edges: each end gets one ε-edge to the
      new end. */
  lemma UnionEnds(a: seq<State>, f: Fragment, g: Fragment)
    requires f.end < |a| && g.end < |a| && f.end != g.end
    requires a[f.end].transitions == [] && a[g.end].transitions == []
    ensures UnionOp(a, f, g).0[f.end].transitions == [Transition(Epsilon, [|a| + 1])]
    ensures UnionOp(a, f, g).0[g.end].transitions == [Transition(Epsilon, [|a| + 1])]
  {
  }

  function AltEdges(): seq<seq<Transition>>
  {
    var e := Transition(Epsilon, [5]);
    [[Transition('a', [1])], [e], [Transition('b', [3])], [e], [Transition(Epsilon, [0, 2])], []]
  }

  /** The walk over those edges from 4: the start registers 0 and 2, then visits them in
      that order. */
  lemma AltWalk()
    ensures DfsOrder(AltEdges(), 4) == Tally([4, 0, 2, 1, 5, 3], [Epsilon, 'a', 'b'])
  {
    var g := AltEdges();
    var t0 := Tally([4], []);
    var t1 := Trail(Tally([4, 0, 2], [Epsilon]), {4});
    AltBranchA();
    AltBranchB();
    assert DfsTargets(g, t1, [0, 2], 1) == DfsVisit(g, t1, 0);
    assert NoteTargets(t0, Epsilon, [0, 2], 1) == Tally([4, 0], [Epsilon]);
    assert NoteTargets(t0, Epsilon, [0, 2], 2) == t1.tally;
    assert NoteEntries(t0, g[4], 1) == t1.tally;
    assert DfsEntries(g, t1, g[4], 1) == DfsTargets(g, t1, [0, 2], 2);
    assert DfsTargets(g, t1, [0, 2], 2) == DfsVisit(g, DfsTargets(g, t1, [0, 2], 1), 2);
    var start := Trail(t0, {});
    assert start.seen + {4} == t1.seen && |g[4]| == 1;
    assert DfsVisit(g, start, 4) == DfsEntries(g, t1, g[4], 1);
  }

  /** a's branch: 0, 1 and the shared end 5. */
  lemma AltBranchA()
    ensures DfsVisit(AltEdges(), Trail(Tally([4, 0, 2], [Epsilon]), {4}), 0) ==
            Trail(Tally([4, 0, 2, 1, 5], [Epsilon, 'a']), {4, 0, 1, 5})
  {
    var g := AltEdges();
    var t2 := Trail(Tally([4, 0, 2, 1], [Epsilon, 'a']), {4, 0});
    var t3 := Trail(Tally([4, 0, 2, 1, 5], [Epsilon, 'a']), {4, 0, 1});
    var t4 := Trail(Tally([4, 0, 2, 1, 5], [Epsilon, 'a']), {4, 0, 1, 5});
    VisitLeaf(g, t3, 5);
    VisitSingle(g, t2, 1, Epsilon, 5, t3, t4);
    VisitSingle(g, Trail(Tally([4, 0, 2], [Epsilon]), {4}), 0, 'a', 1, t2, t4);
  }

  /** b's branch: 2 and 3, whose destination 5 is already visited. */
  lemma AltBranchB()
    ensures DfsVisit(AltEdges(), Trail(Tally([4, 0, 2, 1, 5], [Epsilon, 'a']), {4, 0, 1, 5}), 2) ==
            Trail(Tally([4, 0, 2, 1, 5, 3], [Epsilon, 'a', 'b']), {4, 0, 1, 5, 2, 3})
  {
    var g := AltEdges();
    var t5 := Trail(Tally([4, 0, 2, 1, 5, 3], [Epsilon, 'a', 'b']), {4, 0, 1, 5, 2});
    var t6 := Trail(Tally([4, 0, 2, 1, 5, 3], [Epsilon, 'a', 'b']), {4, 0, 1, 5, 2, 3});
    VisitSingle(g, t5, 3, Epsilon, 5, t6, t6);
    VisitSingle(g, Trail(Tally([4, 0, 2, 1, 5], [Epsilon, 'a']), {4, 0, 1, 5}), 2, 'b', 3, t5, t6);
  }

  /** The visit of an unvisited state with one edge: registration, then the visit of
      the edge's destination. */
  lemma VisitSingle(g: seq<seq<Transition>>, tr: Trail, v: nat, symbol: char, x: nat, mid: Trail, r: Trail)
    requires v < |g| && v !in tr.seen && g[v] == [Transition(symbol, [x])]
    requires mid == Trail(Note(tr.tally, symbol, x), tr.seen + {v}) && DfsVisit(g, mid, x) == r
    ensures DfsVisit(g, tr, v) == r
  {
    var ts := g[v];
    assert NoteEntries(tr.tally, ts, 0) == tr.tally;
    assert NoteTargets(tr.tally, symbol, [x], 1) == mid.tally;
    assert NoteEntries(tr.tally, ts, 1) == mid.tally;
    assert DfsEntries(g, mid, ts, 1) == DfsTargets(g, mid, [x], 1);
  }

  /** The visit of an unvisited state without edges only marks it visited. */
  lemma VisitLeaf(g: seq<seq<Transition>>, tr: Trail, v: nat)
    requires v < |g| && v !in tr.seen && g[v] == []
    ensures DfsVisit(g, tr, v) == Trail(tr.tally, tr.seen + {v})
  {
    assert NoteEntries(tr.tally, [], 0) == tr.tally;
  }

  /** A walk from the start of Thompson's automaton numbers every one of its states:
      the numbered states are closed under edges, and every state of the construction is
      reachable from its start. */
  lemma WalkCoversBuild(re: Re, a: seq<State>, numbered: seq<nat>)
    requires SameGraph(Build(re, []).0, a) && WellFormed(a) && Numbered(a, numbered)
    requires |numbered| >= 1 && numbered[0] == Build(re, []).1.start
    requires forall k :: 0 <= k < |numbered| ==> forall t :: t in TargetSet(a[numbered[k]].transitions) ==> a[t].id >= 0
    ensures |numbered| == |a|
  {
    var S := set k | 0 <= k < |numbered| :: numbered[k];
    forall x | x in S && x < |a|
      ensures TargetSet(a[x].transitions) <= S
    {
      var k :| 0 <= k < |numbered| && numbered[k] == x;
      forall t | t in TargetSet(a[x].transitions)
        ensures t in S
      {
        assert StateFits(a[x], |a|);
        assert numbered[a[t].id] == t;
      }
    }
    assert EdgesKept(Build(re, []).0, a, 0, |a|);
    BuildCovers(re, [], a, S);
    forall v | 0 <= v < |a|
      ensures a[v].id >= 0
    {
      assert v in S;
    }
    AllNumbered(a, numbered);
  }

  /** `Main` without its file input and output: a new constructor, `BuildNFA` on the
      regex, then `ConvertToTransitionList` on the automaton. `None` is the exception
      `BuildNFA` raises. Every created state gets an id, so the ids are 0 .. N - 1 with N
      the state count, and exactly one final flag is set: the one at the end's id. */
  method Translate(regex: string) returns (c: NFAConstructor, r: Option<(Fragment, seq<Row>)>)
    ensures r.Some? <==> Parse(regex).Some?
    ensures r.Some? ==> c.Valid() && SameGraph(Build(Parse(regex).value, []).0, c.states)
    ensures r.Some? ==> r.value.0 == Build(Parse(regex).value, []).1
    ensures r.Some? ==> |c.numbered| == |c.states| == c.stateCounter && Numbered(c.states, c.numbered)
    ensures r.Some? ==> |c.outputFinalStates| == c.stateCounter
    ensures r.Some? ==> forall k :: 0 <= k < c.stateCounter ==> (c.outputFinalStates[k] <==> k == c.states[r.value.0.end].id)
  {
    c := new NFAConstructor();
    var nfa := c.BuildNFA(regex);
    if nfa.None? {
      return c, None;
    }
    var f := nfa.value;
    ghost var re := Parse(regex).value;
    ghost var built := c.states;
    BuildSegment(re, []);
    BuildSingleFinal(re);
    var table := c.ConvertToTransitionList(f);
    WalkCoversBuild(re, c.states, c.numbered);
    r := Some((f, table));
  }
}