/** The stack evaluator of `BuildNFA`, run on parse trees instead of fragments. It makes
    the same pushes, pops and reductions in the same order; `Thompson.Build` then
    turns the tree it produces into the automaton the program builds. `None` marks
    the inputs on which the program pops or peeks an empty stack. */
module Evaluator {
  import opened Options
  import opened Graph
  import opened Thompson

  /** The operand stack (trees) and the operator stack, tops at the end. */
  datatype Config = Config(operands: seq<Re>, ops: seq<char>)

  /** The characters `BuildNFA` recognises as operators (the keys of its precedence table). */
  predicate IsOperator(c: char)
  {
    c == '|' || c == '*' || c == '+'
  }

  /** An operand boundary before position i: a previous character exists and it is
      neither '(' nor '|'. */
  predicate Boundary(regex: string, i: nat)
    requires i <= |regex|
  {
    i >= 1 && regex[i - 1] != '(' && regex[i - 1] != '|'
  }

  /** The implicit concatenation marker pushed at an operand boundary. */
  function Implicit(regex: string, i: nat): seq<char>
    requires i <= |regex|
  {
    if Boundary(regex, i) then ['.'] else []
  }

  /** How many operands `OperatorsHandler` pops for an operator. */
  function Arity(op: char): nat
  {
    if op == '.' || op == '|' then 2 else if op == '*' || op == '+' then 1 else 0
  }

  /** `OperatorsHandler`: pop one operator; `.` and `|` pop two operands (the earlier one
      on the left) and push their combination, `*` and `+` pop one and push one, any
      other operator is dropped. */
  function Apply(cfg: Config): (r: Option<Config>)
    requires |cfg.ops| > 0
    ensures r.None? <==> |cfg.operands| < Arity(cfg.ops[|cfg.ops| - 1])
    ensures r.Some? ==> r.value.ops == cfg.ops[..|cfg.ops| - 1]
    ensures r.Some? ==>
              var k := Arity(cfg.ops[|cfg.ops| - 1]);
              |r.value.operands| == |cfg.operands| - k + (if k == 0 then 0 else 1) &&
              r.value.operands[..|cfg.operands| - k] == cfg.operands[..|cfg.operands| - k]
  {
    var head := cfg.ops[|cfg.ops| - 1];
    var ops := cfg.ops[..|cfg.ops| - 1];
    var n := |cfg.operands|;
    if head == '.' || head == '|' then
      if n < 2 then None
      else
        var first, second := cfg.operands[n - 2], cfg.operands[n - 1];
        Some(Config(cfg.operands[..n - 2] + [if head == '.' then Cat(first, second) else Alt(first, second)], ops))
    else if head == '*' || head == '+' then
      if n < 1 then None
      else
        var body := cfg.operands[n - 1];
        Some(Config(cfg.operands[..n - 1] + [if head == '*' then Star(body) else Plus(body)], ops))
    else
      Some(Config(cfg.operands, ops))
  }

  /** The `)` case: apply operators until '(' is on top, then pop it. */
  function CloseGroup(cfg: Config): Option<Config>
    decreases |cfg.ops|
  {
    if |cfg.ops| == 0 then None
    else if cfg.ops[|cfg.ops| - 1] == '(' then Some(Config(cfg.operands, cfg.ops[..|cfg.ops| - 1]))
    else
      match Apply(cfg)
      case None => None
      case Some(next) => CloseGroup(next)
  }

  /** The end of input: apply operators until the operator stack is empty. */
  function Drain(cfg: Config): (r: Option<Config>)
    ensures r.Some? ==> r.value.ops == []
    decreases |cfg.ops|
  {
    if |cfg.ops| == 0 then Some(cfg)
    else
      match Apply(cfg)
      case None => None
      case Some(next) => Drain(next)
  }

  /** One iteration of the scan, on character i. */
  function Step(regex: string, i: nat, cfg: Config): Option<Config>
    requires i < |regex|
  {
    var c := regex[i];
    if c == '(' then
      Some(Config(cfg.operands, cfg.ops + Implicit(regex, i) + ['(']))
    else if c == ')' then
      CloseGroup(cfg)
    else if IsOperator(c) then
      var pushed := Config(cfg.operands, cfg.ops + [c]);
      if c == '*' || c == '+' then Apply(pushed) else Some(pushed)
    else
      Some(Config(cfg.operands + [Sym(c)], cfg.ops + Implicit(regex, i)))
  }

  /** The stacks after the first n characters. */
  function Run(regex: string, n: nat): Option<Config>
    requires n <= |regex|
  {
    if n == 0 then Some(Config([], []))
    else
      match Run(regex, n - 1)
      case None => None
      case Some(cfg) => Step(regex, n - 1, cfg)
  }

  /** The operand stack after the final drain; `None` also when it is empty, since the
      program then pops an empty stack for its result. */
  function Evaluate(regex: string): Option<seq<Re>>
  {
    match Run(regex, |regex|)
    case None => None
    case Some(cfg) =>
      match Drain(cfg)
      case None => None
      case Some(done) => if done.operands == [] then None else Some(done.operands)
  }

  /** The tree whose fragment `BuildNFA` returns: the top of the final operand stack. */
  function Parse(regex: string): Option<Re>
  {
    match Evaluate(regex)
    case None => None
    case Some(s) => Some(s[|s| - 1])
  }

  // ---------------------------------------------------------------------------
  // Building a stack of trees.

  lemma BuildSeqPush(res: seq<Re>, t: Re, a: seq<State>)
    ensures BuildSeq(res + [t], a) ==
            (Build(t, BuildSeq(res, a).0).0, BuildSeq(res, a).1 + [Build(t, BuildSeq(res, a).0).1])
  {
    assert (res + [t])[..|res|] == res;
  }

  /** A stack of one tree is that tree's construction. */
  lemma BuildSeqSingle(t: Re, a: seq<State>)
    ensures BuildSeq([t], a) == (Build(t, a).0, [Build(t, a).1])
  {
    assert [] + [t] == [t];
    BuildSeqPush([], t, a);
    var b := Build(t, a);
    var fs: seq<Fragment> := [];
    assert BuildSeq([t], a).1 == fs + [b.1];
    assert fs + [b.1] == [b.1];
  }

  /** The fragments of a built stack lie in the arena it was built into. */
  lemma {:induction false} BuildSeqFit(res: seq<Re>, a: seq<State>)
    ensures FragmentsFit(BuildSeq(res, a).1, |BuildSeq(res, a).0|)
  {
    if res != [] {
      var init := res[..|res| - 1];
      BuildSeqFit(init, a);
      var (b, fs) := BuildSeq(init, a);
      var (c, f) := Build(res[|res| - 1], b);
      assert BuildSeq(res, a) == (c, fs + [f]);
    }
  }

  /** Reducing the top two trees of a stack with `.` (cat) or `|` (not cat) is applying
      `Concatenate` or `Union` to the top two fragments, the earlier one first, on the
      arena built for the stack. */
  lemma BuildSeqBinary(trees: seq<Re>, a: seq<State>, cat: bool)
    requires |trees| >= 2
    ensures var b := BuildSeq(trees, a);
      var n := |trees|;
      var t := if cat then Cat(trees[n - 2], trees[n - 1]) else Alt(trees[n - 2], trees[n - 1]);
      |b.1| == n && FragmentsFit(b.1, |b.0|) &&
      var r := if cat then ConcatOp(b.0, b.1[n - 2], b.1[n - 1]) else UnionOp(b.0, b.1[n - 2], b.1[n - 1]);
      BuildSeq(trees[..n - 2] + [t], a) == (r.0, b.1[..n - 2] + [r.1])
  {
    var n := |trees|;
    var init, x, y := trees[..n - 2], trees[n - 2], trees[n - 1];
    assert init + [x] + [y] == trees;
    assert (init + [x] + [y])[..n - 1] == init + [x];
    BuildSeqFit(trees, a);
    BuildSeqPush(init, x, a);
    BuildSeqPush(init + [x], y, a);
    var b0 := BuildSeq(init, a);
    var b1 := Build(x, b0.0);
    var b2 := Build(y, b1.0);
    assert BuildSeq(trees, a) == (b2.0, b0.1 + [b1.1] + [b2.1]);
    assert (b0.1 + [b1.1] + [b2.1])[..n - 2] == b0.1;
    if cat {
      BuildSeqPush(init, Cat(x, y), a);
      assert Build(Cat(x, y), b0.0) == ConcatOp(b2.0, b1.1, b2.1);
    } else {
      BuildSeqPush(init, Alt(x, y), a);
      assert Build(Alt(x, y), b0.0) == UnionOp(b2.0, b1.1, b2.1);
    }
  }

  /** Reducing the top tree of a stack with `*` (star) or `+` (not star) is applying
      `Star` or `Plus` to the top fragment, on the arena built for the stack. */
  lemma BuildSeqUnary(trees: seq<Re>, a: seq<State>, star: bool)
    requires |trees| >= 1
    ensures var b := BuildSeq(trees, a);
      var n := |trees|;
      var t := if star then Star(trees[n - 1]) else Plus(trees[n - 1]);
      var r := if star then StarOp(b.0, b.1[n - 1]) else PlusOp(b.0, b.1[n - 1]);
      |b.1| == n && BuildSeq(trees[..n - 1] + [t], a) == (r.0, b.1[..n - 1] + [r.1])
  {
    var n := |trees|;
    var init, x := trees[..n - 1], trees[n - 1];
    assert init + [x] == trees;
    BuildSeqPush(init, x, a);
    BuildSeqPush(init, if star then Star(x) else Plus(x), a);
    var b0 := BuildSeq(init, a);
    assert BuildSeq(trees, a).1[..n - 1] == b0.1;
  }

  // ---------------------------------------------------------------------------
  // The operand stack never holds more than one tree once the operators are drained.

  /** How many binary operators wait on the operator stack. */
  function Binaries(ops: seq<char>): nat
  {
    if ops == [] then 0
    else Binaries(ops[..|ops| - 1]) + (if ops[|ops| - 1] == '.' || ops[|ops| - 1] == '|' then 1 else 0)
  }

  /** Between two characters the operator stack holds only '(', '.' and '|'. */
  ghost predicate Pending(ops: seq<char>)
  {
    forall k :: 0 <= k < |ops| ==> ops[k] == '(' || ops[k] == '.' || ops[k] == '|'
  }

  /** Reducing a pending operator keeps operands - binaries. */
  lemma ApplyBalance(cfg: Config)
    requires |cfg.ops| > 0 && Pending(cfg.ops) && Apply(cfg).Some?
    ensures Pending(Apply(cfg).value.ops)
    ensures |Apply(cfg).value.operands| + Binaries(cfg.ops) == |cfg.operands| + Binaries(Apply(cfg).value.ops)
  {
  }

  lemma {:induction false} CloseGroupBalance(cfg: Config)
    requires Pending(cfg.ops) && CloseGroup(cfg).Some?
    ensures Pending(CloseGroup(cfg).value.ops)
    ensures |CloseGroup(cfg).value.operands| + Binaries(cfg.ops) == |cfg.operands| + Binaries(CloseGroup(cfg).value.ops)
    decreases |cfg.ops|
  {
    if cfg.ops[|cfg.ops| - 1] != '(' {
      ApplyBalance(cfg);
      CloseGroupBalance(Apply(cfg).value);
    }
  }

  lemma {:induction false} DrainBalance(cfg: Config)
    requires Pending(cfg.ops) && Drain(cfg).Some?
    ensures |Drain(cfg).value.operands| + Binaries(cfg.ops) == |cfg.operands|
    decreases |cfg.ops|
  {
    if |cfg.ops| > 0 {
      ApplyBalance(cfg);
      DrainBalance(Apply(cfg).value);
    }
  }

  /** Operands and binary operators between two characters: operands never outnumber
      the binary operators by more than one, and by none right after '(' or '|' or at
      the very start. */
  ghost predicate Balanced(regex: string, n: nat, cfg: Config)
    requires n <= |regex|
  {
    Pending(cfg.ops) &&
    |cfg.operands| + (if Boundary(regex, n) then 0 else 1) <= Binaries(cfg.ops) + 1
  }

  lemma BinariesPush(ops: seq<char>, c: char)
    ensures Binaries(ops + [c]) == Binaries(ops) + (if c == '.' || c == '|' then 1 else 0)
  {
    assert (ops + [c])[..|ops|] == ops;
  }

  /** A '(' or a literal pushes at most the implicit '.', and a literal one operand. */
  lemma PushBalance(regex: string, i: nat, cfg: Config, operand: seq<Re>, close: seq<char>)
    requires i < |regex| && Balanced(regex, i, cfg)
    requires |operand| + |close| == 1 && (close == [] || close == ['('])
    requires regex[i] != '|' && (regex[i] == '(' <==> close == ['('])
    ensures Balanced(regex, i + 1, Config(cfg.operands + operand, cfg.ops + Implicit(regex, i) + close))
  {
    var ops := cfg.ops + Implicit(regex, i);
    if Boundary(regex, i) {
      PendingPush(cfg.ops, '.');
      BinariesPush(cfg.ops, '.');
      assert Binaries(ops) == Binaries(cfg.ops) + 1;
    } else {
      assert ops == cfg.ops;
    }
    assert Pending(ops);
    if close == ['('] {
      PendingPush(ops, '(');
      BinariesPush(ops, '(');
      assert Binaries(ops + close) == Binaries(ops);
    } else {
      assert ops + close == ops;
    }
  }

  lemma PendingPush(ops: seq<char>, c: char)
    requires Pending(ops) && (c == '(' || c == '.' || c == '|')
    ensures Pending(ops + [c])
  {
  }

  lemma StepBalance(regex: string, i: nat, cfg: Config)
    requires i < |regex| && Balanced(regex, i, cfg) && Step(regex, i, cfg).Some?
    ensures Balanced(regex, i + 1, Step(regex, i, cfg).value)
  {
    var c := regex[i];
    if c == '(' {
      PushBalance(regex, i, cfg, [], ['(']);
      assert cfg.operands + [] == cfg.operands;
    } else if c == ')' {
      CloseGroupBalance(cfg);
    } else if IsOperator(c) {
      BinariesPush(cfg.ops, c);
      var pushed := Config(cfg.operands, cfg.ops + [c]);
      if c != '|' {
        assert pushed.ops[..|cfg.ops|] == cfg.ops;
      }
    } else {
      PushBalance(regex, i, cfg, [Sym(c)], []);
      assert cfg.ops + Implicit(regex, i) + [] == cfg.ops + Implicit(regex, i);
    }
  }

  /** The scan keeps the stacks balanced. */
  lemma {:induction false} RunBalance(regex: string, n: nat)
    requires n <= |regex| && Run(regex, n).Some?
    ensures Balanced(regex, n, Run(regex, n).value)
  {
    if n > 0 {
      RunBalance(regex, n - 1);
      StepBalance(regex, n - 1, Run(regex, n - 1).value);
    }
  }

  /** Whenever evaluation succeeds, exactly one fragment is left: `BuildNFA`'s final pop
      takes the whole automaton and leaves nothing behind. */
  lemma EvaluateSingle(regex: string)
    requires Evaluate(regex).Some?
    ensures |Evaluate(regex).value| == 1
  {
    RunBalance(regex, |regex|);
    DrainBalance(Run(regex, |regex|).value);
  }

  /** The end of `BuildNFA`: after the scan reached `cfg` and the drain left `done`, the
      input has a tree exactly when `done` is not empty, and then `done` is that tree
      alone. */
  lemma ParseOfDrain(regex: string, cfg: Config)
    requires Run(regex, |regex|) == Some(cfg)
    ensures Drain(cfg).None? ==> Parse(regex).None?
    ensures Drain(cfg).Some? ==>
      var done := Drain(cfg).value.operands;
      (Parse(regex).Some? <==> done != []) && (done != [] ==> done == [Parse(regex).value])
  {
    if Drain(cfg).Some? && Drain(cfg).value.operands != [] {
      EvaluateSingle(regex);
      var done := Drain(cfg).value.operands;
      assert done == [done[0]];
    }
  }

  // ---------------------------------------------------------------------------
  // What the evaluator makes of particular inputs.

  /** Once the program has failed it stays failed. */
  lemma {:induction false} RunStuck(regex: string, i: nat, n: nat)
    requires i <= n <= |regex| && Run(regex, i) == None
    ensures Run(regex, n) == None
    decreases n - i
  {
    if i < n {
      RunStuck(regex, i + 1, n);
    }
  }

  lemma RunNext(regex: string, n: nat)
    requires n < |regex| && Run(regex, n).Some?
    ensures Run(regex, n + 1) == Step(regex, n, Run(regex, n).value)
  {
  }

  /** A literal pushes its tree, after the implicit '.' at an operand boundary. */
  lemma LiteralStep(regex: string, n: nat, cfg: Config, operands: seq<Re>, ops: seq<char>)
    requires n < |regex| && Run(regex, n) == Some(cfg)
    requires regex[n] != '(' && regex[n] != ')' && !IsOperator(regex[n])
    requires operands == cfg.operands + [Sym(regex[n])] && ops == cfg.ops + Implicit(regex, n)
    ensures Run(regex, n + 1) == Some(Config(operands, ops))
  {
  }

  /** Reducing a binary operator on top of the operator stack. */
  lemma ApplyBinary(cfg: Config, operands: seq<Re>, ops: seq<char>)
    requires |cfg.ops| > 0 && |cfg.operands| >= 2
    requires var op := cfg.ops[|cfg.ops| - 1]; var n := |cfg.operands|;
      (op == '.' || op == '|') && ops == cfg.ops[..|cfg.ops| - 1] &&
      operands == cfg.operands[..n - 2] +
                  [if op == '.' then Cat(cfg.operands[n - 2], cfg.operands[n - 1]) else Alt(cfg.operands[n - 2], cfg.operands[n - 1])]
    ensures Apply(cfg) == Some(Config(operands, ops))
  {
  }

  /** Reducing a postfix operator on top of the operator stack. */
  lemma ApplyUnary(cfg: Config, operands: seq<Re>, ops: seq<char>)
    requires |cfg.ops| > 0 && |cfg.operands| >= 1
    requires var op := cfg.ops[|cfg.ops| - 1]; var n := |cfg.operands|;
      (op == '*' || op == '+') && ops == cfg.ops[..|cfg.ops| - 1] &&
      operands == cfg.operands[..n - 1] + [if op == '*' then Star(cfg.operands[n - 1]) else Plus(cfg.operands[n - 1])]
    ensures Apply(cfg) == Some(Config(operands, ops))
  {
  }

  lemma UnionScan()
    ensures Run("ab|c", 4) == Some(Config([Sym('a'), Sym('b'), Sym('c')], ['.', '|']))
  {
    var r := "ab|c";
    var a, b, c := Sym('a'), Sym('b'), Sym('c');
    assert r[0] == 'a' && r[1] == 'b' && r[2] == '|' && r[3] == 'c';
    assert Implicit(r, 0) == [] && Implicit(r, 1) == ['.'] && Implicit(r, 3) == [];
    assert [] + [a] == [a] && [a] + [b] == [a, b] && [a, b] + [c] == [a, b, c];
    assert ['.'] + ['|'] == ['.', '|'] && ['.', '|'] + [] == ['.', '|'];
    LiteralStep(r, 0, Config([], []), [a], []);
    LiteralStep(r, 1, Config([a], []), [a, b], ['.']);
    RunNext(r, 2);
    LiteralStep(r, 3, Config([a, b], ['.', '|']), [a, b, c], ['.', '|']);
  }

  /** Union and implicit concatenation are reduced last-in first-out with no precedence,
      so `ab|c` groups as a(b|c), not (ab)|c. */
  lemma UnionBindsTighterThanJuxtaposition()
    ensures Parse("ab|c") == Some(Cat(Sym('a'), Alt(Sym('b'), Sym('c'))))
  {
    var a, b, c := Sym('a'), Sym('b'), Sym('c');
    UnionScan();
    assert [a, b, c][..1] + [Alt(b, c)] == [a, Alt(b, c)] && ['.', '|'][..1] == ['.'];
    ApplyBinary(Config([a, b, c], ['.', '|']), [a, Alt(b, c)], ['.']);
    assert [a, Alt(b, c)][..0] + [Cat(a, Alt(b, c))] == [Cat(a, Alt(b, c))] && ['.'][..0] == [];
    ApplyBinary(Config([a, Alt(b, c)], ['.']), [Cat(a, Alt(b, c))], []);
    assert Drain(Config([a, b, c], ['.', '|'])) == Some(Config([Cat(a, Alt(b, c))], []));
  }

  /** The two literals of `ab*` are pushed with an implicit '.' between them. */
  lemma LiteralsScan()
    ensures Run("ab*", 2) == Some(Config([Sym('a'), Sym('b')], ['.']))
  {
    var r := "ab*";
    var a, b := Sym('a'), Sym('b');
    assert r[0] == 'a' && r[1] == 'b';
    assert Implicit(r, 0) == [] && Implicit(r, 1) == ['.'];
    assert [] + [a] == [a] && [a] + [b] == [a, b];
    LiteralStep(r, 0, Config([], []), [a], []);
    LiteralStep(r, 1, Config([a], []), [a, b], ['.']);
  }

  lemma StarScan()
    ensures Run("ab*", 3) == Some(Config([Sym('a'), Star(Sym('b'))], ['.']))
  {
    var r := "ab*";
    var a, b := Sym('a'), Sym('b');
    LiteralsScan();
    assert r[2] == '*';
    RunNext(r, 2);
    assert ['.'] + ['*'] == ['.', '*'] && ['.', '*'][..1] == ['.'];
    assert [a, b][..1] + [Star(b)] == [a, Star(b)];
    ApplyUnary(Config([a, b], ['.', '*']), [a, Star(b)], ['.']);
  }

  /** A postfix operator is reduced at once onto the operand before it: `ab*` is a(b*). */
  lemma StarBindsToPreviousOperand()
    ensures Parse("ab*") == Some(Cat(Sym('a'), Star(Sym('b'))))
  {
    var a, b := Sym('a'), Sym('b');
    StarScan();
    assert [a, Star(b)][..0] + [Cat(a, Star(b))] == [Cat(a, Star(b))] && ['.'][..0] == [];
    ApplyBinary(Config([a, Star(b)], ['.']), [Cat(a, Star(b))], []);
    assert Drain(Config([a, Star(b)], ['.'])) == Some(Config([Cat(a, Star(b))], []));
  }

  lemma GroupScan()
    ensures Run("(a|b)+", 4) == Some(Config([Sym('a'), Sym('b')], ['(', '|']))
  {
    var r := "(a|b)+";
    var a, b := Sym('a'), Sym('b');
    assert r[0] == '(' && r[1] == 'a' && r[2] == '|' && r[3] == 'b';
    assert Implicit(r, 0) == [] && Implicit(r, 1) == [] && Implicit(r, 3) == [];
    assert [] + [a] == [a] && [a] + [b] == [a, b];
    assert [] + [] + ['('] == ['('] && ['('] + [] == ['('];
    assert ['('] + ['|'] == ['(', '|'] && ['(', '|'] + [] == ['(', '|'];
    RunNext(r, 0);
    LiteralStep(r, 1, Config([], ['(']), [a], ['(']);
    RunNext(r, 2);
    LiteralStep(r, 3, Config([a], ['(', '|']), [a, b], ['(', '|']);
  }

  lemma GroupClose()
    ensures Run("(a|b)+", 5) == Some(Config([Alt(Sym('a'), Sym('b'))], []))
  {
    var r := "(a|b)+";
    var a, b := Sym('a'), Sym('b');
    GroupScan();
    assert r[4] == ')';
    assert [a, b][..0] + [Alt(a, b)] == [Alt(a, b)] && ['(', '|'][..1] == ['('];
    ApplyBinary(Config([a, b], ['(', '|']), [Alt(a, b)], ['(']);
    assert ['('][..0] == [];
    assert CloseGroup(Config([a, b], ['(', '|'])) == Some(Config([Alt(a, b)], []));
    RunNext(r, 4);
  }

  /** A parenthesised union followed by `+`: `(a|b)+` is (a|b)+. */
  lemma GroupedUnionPlus()
    ensures Parse("(a|b)+") == Some(Plus(Alt(Sym('a'), Sym('b'))))
  {
    var r := "(a|b)+";
    var ab := Alt(Sym('a'), Sym('b'));
    GroupClose();
    assert r[5] == '+';
    RunNext(r, 5);
    assert [] + ['+'] == ['+'] && ['+'][..0] == [];
    assert [ab][..0] + [Plus(ab)] == [Plus(ab)];
    ApplyUnary(Config([ab], ['+']), [Plus(ab)], []);
    assert Run(r, 6) == Some(Config([Plus(ab)], []));
  }

  /** Inputs on which the program pops an empty stack: the empty regex (no fragment to
      return), a ')' without '(' and a leading '*'. */
  lemma MalformedInputs()
    ensures Parse("") == None
    ensures Parse(")") == None
    ensures Parse("*") == None
  {
    RunNext(")", 0);
    RunNext("*", 0);
    assert [] + ['*'] == ['*'];
  }
}
