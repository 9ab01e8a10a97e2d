/** The infix-to-postfix converter `RegexParser.ToPostfix`: a shunting-yard pass over
    the regular expression with an operator stack, inserting the concatenation
    operator '.' after a letter or digit that is followed by a letter, a digit or '('.
    The pure functions below describe the pass character by character; the method
    `ToPostfix` is the loop itself and is proved to compute them. */
module RegexParser {
  import opened Options

  /** The program's precedence dictionary. */
  const PrecedenceTable: map<char, int> := map['|' := 1, '.' := 2, '*' := 3, '+' := 3]

  /** A dictionary lookup; `None` is the missing-key exception. */
  function Precedence(c: char): (r: Option<int>)
    ensures r.Some? <==> c == '|' || c == '.' || c == '*' || c == '+'
  {
    if c in PrecedenceTable then Some(PrecedenceTable[c]) else None
  }

  /** Letters and digits, ASCII only. */
  predicate IsLetterOrDigit(c: char)
  {
    ('a' <= c <= 'z') || ('A' <= c <= 'Z') || ('0' <= c <= '9')
  }

  /** The stack (top at the end) and the output after a prefix of the input. */
  datatype Scan = Scan(ops: seq<char>, out: string)

  /** The characters of s from last to first: the order in which a stack holding s
      (top at the end) is popped. */
  function Reversed(s: seq<char>): (r: seq<char>)
    ensures |r| == |s|
  {
    if s == [] then [] else [s[|s| - 1]] + Reversed(s[..|s| - 1])
  }

  lemma ReversedSnoc(s: seq<char>, x: char)
    ensures Reversed(s + [x]) == [x] + Reversed(s)
  {
    assert (s + [x])[..|s|] == s;
  }

  /** Reversal only reorders. */
  lemma {:induction false} ReversedMultiset(s: seq<char>)
    ensures multiset(Reversed(s)) == multiset(s)
    decreases |s|
  {
    if s != [] {
      assert s == s[..|s| - 1] + [s[|s| - 1]];
      ReversedMultiset(s[..|s| - 1]);
    }
  }

  /** The letters and digits of s, in order. */
  function Letters(s: string): string
  {
    if s == [] then [] else Letters(s[..|s| - 1]) + (if IsLetterOrDigit(s[|s| - 1]) then [s[|s| - 1]] else [])
  }

  /** Popping before an operator c is pushed: while the top is not '(' and c binds no
      tighter than it, the top goes to the output. A missing precedence is `None`. */
  function PopWhileBinds(c: char, ops: seq<char>, out: string): Option<(seq<char>, string)>
    decreases |ops|
  {
    if |ops| == 0 || ops[|ops| - 1] == '(' then Some((ops, out))
    else
      var top := ops[|ops| - 1];
      if Precedence(c).None? || Precedence(top).None? then None
      else if Precedence(c).value <= Precedence(top).value then PopWhileBinds(c, ops[..|ops| - 1], out + [top])
      else Some((ops, out))
  }

  /** Popping at ')': everything above the nearest '(' goes to the output, and the '('
      is dropped. Peeking an empty stack is `None`. */
  function PopToOpen(ops: seq<char>, out: string): Option<(seq<char>, string)>
    decreases |ops|
  {
    if |ops| == 0 then None
    else if ops[|ops| - 1] == '(' then Some((ops[..|ops| - 1], out))
    else PopToOpen(ops[..|ops| - 1], out + [ops[|ops| - 1]])
  }

  /** Popping before an operator keeps a prefix of the stack and outputs the rest top
      first, none of it '('; what stops it is the bottom, a '(' or a top that binds less
      tightly than c. */
  lemma {:induction false} PopWhileBindsShape(c: char, ops: seq<char>, out: string)
    requires PopWhileBinds(c, ops, out).Some?
    ensures var p := PopWhileBinds(c, ops, out).value; var k := |p.0|;
      && k <= |ops| && p.0 == ops[..k] && p.1 == out + Reversed(ops[k..]) && '(' !in ops[k..]
      && (k == 0 || ops[k - 1] == '(' ||
          (Precedence(c).Some? && Precedence(ops[k - 1]).Some? && Precedence(c).value > Precedence(ops[k - 1]).value))
    decreases |ops|
  {
    if |ops| == 0 || ops[|ops| - 1] == '(' {
      assert ops[|ops|..] == [];
    } else if Precedence(c).value <= Precedence(ops[|ops| - 1]).value {
      var top, init := ops[|ops| - 1], ops[..|ops| - 1];
      PopWhileBindsShape(c, init, out + [top]);
      var k := |PopWhileBinds(c, init, out + [top]).value.0|;
      assert init[..k] == ops[..k];
      assert ops[k..] == init[k..] + [top];
      ReversedSnoc(init[k..], top);
    } else {
      assert ops[|ops|..] == [];
    }
  }

  /** The popping before an operator with a precedence fails only on a stack character
      without one. */
  lemma {:induction false} PopWhileBindsDefined(c: char, ops: seq<char>, out: string)
    requires Precedence(c).Some? && forall x :: x in ops ==> x == '(' || Precedence(x).Some?
    ensures PopWhileBinds(c, ops, out).Some?
    decreases |ops|
  {
    if |ops| > 0 && ops[|ops| - 1] != '(' {
      assert ops[|ops| - 1] in ops;
      var init := ops[..|ops| - 1];
      assert forall x :: x in init ==> x in ops;
      PopWhileBindsDefined(c, init, out + [ops[|ops| - 1]]);
    }
  }

  /** Popping at ')' fails exactly when the stack holds no '('. */
  lemma {:induction false} PopToOpenFails(ops: seq<char>, out: string)
    ensures PopToOpen(ops, out).None? <==> '(' !in ops
    decreases |ops|
  {
    if |ops| > 0 && ops[|ops| - 1] != '(' {
      var init := ops[..|ops| - 1];
      assert ops == init + [ops[|ops| - 1]];
      PopToOpenFails(init, out + [ops[|ops| - 1]]);
    }
  }

  /** Popping at ')' keeps the stack below the topmost '(' and outputs what is above it,
      top first. */
  lemma {:induction false} PopToOpenShape(ops: seq<char>, out: string)
    requires PopToOpen(ops, out).Some?
    ensures var p := PopToOpen(ops, out).value; var k := |p.0|;
      && k < |ops| && ops[k] == '(' && p.0 == ops[..k]
      && p.1 == out + Reversed(ops[k + 1..]) && '(' !in ops[k + 1..]
    decreases |ops|
  {
    if ops[|ops| - 1] == '(' {
      assert ops[|ops|..] == [];
    } else {
      var top, init := ops[|ops| - 1], ops[..|ops| - 1];
      PopToOpenShape(init, out + [top]);
      var k := |PopToOpen(init, out + [top]).value.0|;
      assert init[..k] == ops[..k];
      assert ops[k + 1..] == init[k + 1..] + [top];
      ReversedSnoc(init[k + 1..], top);
    }
  }

  /** Whether a '.' is pushed after the letter or digit at position i. */
  predicate JoinsNext(regex: string, i: nat)
    requires i < |regex|
  {
    i + 1 < |regex| && (IsLetterOrDigit(regex[i + 1]) || regex[i + 1] == '(')
  }

  /** One character of the pass. */
  function Step(regex: string, i: nat, s: Scan): Option<Scan>
    requires i < |regex|
  {
    var c := regex[i];
    if IsLetterOrDigit(c) then
      Some(Scan(if JoinsNext(regex, i) then s.ops + ['.'] else s.ops, s.out + [c]))
    else if c == '(' then Some(Scan(s.ops + ['('], s.out))
    else if c == ')' then
      match PopToOpen(s.ops, s.out)
      case None => None
      case Some(p) => Some(Scan(p.0, p.1))
    else
      match PopWhileBinds(c, s.ops, s.out)
      case None => None
      case Some(p) => Some(Scan(p.0 + [c], p.1))
  }

  /** The pass over the first n characters. */
  function Run(regex: string, n: nat): Option<Scan>
    requires n <= |regex|
  {
    if n == 0 then Some(Scan([], []))
    else match Run(regex, n - 1)
      case None => None
      case Some(s) => Step(regex, n - 1, s)
  }

  /** The converter's result: the pass, then the remaining stack popped to the output. */
  function Postfix(regex: string): Option<string>
  {
    match Run(regex, |regex|)
    case None => None
    case Some(s) => Some(s.out + Reversed(s.ops))
  }

  /** What the character at position i contributes to the stack and output overall:
      a letter or digit itself and the '.' it may push, ')' nothing, any other character
      itself. */
  function Fed(regex: string, i: nat): seq<char>
    requires i < |regex|
  {
    var c := regex[i];
    if IsLetterOrDigit(c) then [c] + (if JoinsNext(regex, i) then ['.'] else [])
    else if c == ')' then []
    else [c]
  }

  function FedUpTo(regex: string, n: nat): seq<char>
    requires n <= |regex|
  {
    if n == 0 then [] else FedUpTo(regex, n - 1) + Fed(regex, n - 1)
  }

  /** The number of '(' in a multiset count form: c copies of '('. */
  function Opens(c: nat): multiset<char>
  {
    multiset{}['(' := c]
  }

  /** How many times x occurs among the first n characters. */
  function CountUpTo(regex: string, n: nat, x: char): nat
    requires n <= |regex|
  {
    if n == 0 then 0 else CountUpTo(regex, n - 1, x) + (if regex[n - 1] == x then 1 else 0)
  }

  lemma {:induction false} CountUpToMultiset(regex: string, n: nat, x: char)
    requires n <= |regex|
    ensures CountUpTo(regex, n, x) == multiset(regex[..n])[x]
  {
    if n > 0 {
      CountUpToMultiset(regex, n - 1, x);
      assert regex[..n] == regex[..n - 1] + [regex[n - 1]];
    }
  }

  /** What holds after every prefix: the output has the letters and digits in input
      order and no parentheses; the stack holds no letter, digit or ')'; and stack and
      output hold everything fed except one '(' per ')' read. */
  ghost predicate Inv(regex: string, n: nat, s: Scan)
    requires n <= |regex|
  {
    && Letters(s.out) == Letters(regex[..n])
    && (forall k :: 0 <= k < |s.ops| ==> !IsLetterOrDigit(s.ops[k]) && s.ops[k] != ')')
    && ')' !in s.out && '(' !in s.out
    && multiset(s.out) + multiset(s.ops) + Opens(CountUpTo(regex, n, ')')) == multiset(FedUpTo(regex, n))
  }

  lemma LettersSnoc(s: string, c: char)
    ensures Letters(s + [c]) == Letters(s) + (if IsLetterOrDigit(c) then [c] else [])
  {
    assert (s + [c])[..|s|] == s;
  }

  lemma {:induction false} LettersAppend(s: string, t: string)
    ensures Letters(s + t) == Letters(s) + Letters(t)
    decreases |t|
  {
    if t != [] {
      var u, c := t[..|t| - 1], t[|t| - 1];
      assert t == u + [c];
      assert s + t == (s + u) + [c];
      LettersSnoc(s + u, c);
      LettersSnoc(u, c);
      LettersAppend(s, u);
    } else {
      assert s + t == s;
    }
  }

  /** A string with no letters or digits has no letters or digits to keep. */
  lemma {:induction false} LettersNone(s: string)
    requires forall x :: x in s ==> !IsLetterOrDigit(x)
    ensures Letters(s) == []
    decreases |s|
  {
    if s != [] {
      assert s == s[..|s| - 1] + [s[|s| - 1]];
      LettersNone(s[..|s| - 1]);
    }
  }

  /** The pass extended by one character. */
  lemma RunStep(regex: string, n: nat)
    requires n < |regex|
    ensures Run(regex, n + 1) == if Run(regex, n).None? then None else Step(regex, n, Run(regex, n).value)
  {
  }

  /** Stack characters popped to the output carry no letter, digit or parenthesis. */
  lemma PoppedPlain(ops: seq<char>, k: nat)
    requires k <= |ops|
    requires forall i :: 0 <= i < |ops| ==> !IsLetterOrDigit(ops[i]) && ops[i] != ')'
    ensures Letters(Reversed(ops[k..])) == [] && ')' !in Reversed(ops[k..])
    ensures '(' in Reversed(ops[k..]) <==> '(' in ops[k..]
  {
    var q := ops[k..];
    ReversedMultiset(q);
    forall x | x in Reversed(q)
      ensures !IsLetterOrDigit(x) && x != ')'
    {
      assert x in multiset(Reversed(q));
      assert x in q;
    }
    assert '(' in Reversed(q) <==> '(' in multiset(q);
    LettersNone(Reversed(q));
  }

  /** The step at a letter or digit keeps `Inv`. */
  lemma LetterStep(regex: string, n: nat, s: Scan)
    requires n < |regex| && Inv(regex, n, s) && IsLetterOrDigit(regex[n])
    ensures Inv(regex, n + 1, Scan(if JoinsNext(regex, n) then s.ops + ['.'] else s.ops, s.out + [regex[n]]))
  {
    if JoinsNext(regex, n) {
      LetterPush(regex, n, s, ['.']);
    } else {
      LetterPush(regex, n, s, []);
      assert s.ops + [] == s.ops;
    }
  }

  /** The step at a letter or digit, with d the '.' it pushes, if any. */
  lemma LetterPush(regex: string, n: nat, s: Scan, d: seq<char>)
    requires n < |regex| && Inv(regex, n, s) && IsLetterOrDigit(regex[n])
    requires d == if JoinsNext(regex, n) then ['.'] else []
    ensures Inv(regex, n + 1, Scan(s.ops + d, s.out + [regex[n]]))
  {
    var c := regex[n];
    assert Letters(s.out + [c]) == Letters(regex[..n + 1]) by {
      LettersSnoc(s.out, c);
      PrefixLetters(regex, n);
    }
    assert multiset(s.out + [c]) + multiset(s.ops + d) + Opens(CountUpTo(regex, n + 1, ')'))
           == multiset(FedUpTo(regex, n + 1)) by {
      LetterCounts(regex, n, s.out, s.ops);
    }
    assert ')' !in s.out + [c] && '(' !in s.out + [c];
    PushAllPlain(s.ops, d);
    InvIntro(regex, n + 1, Scan(s.ops + d, s.out + [c]));
  }

  /** Pushing characters that are neither letters, digits nor ')' keeps the stack so. */
  lemma PushAllPlain(ops: seq<char>, d: seq<char>)
    requires forall k :: 0 <= k < |ops| ==> !IsLetterOrDigit(ops[k]) && ops[k] != ')'
    requires forall k :: 0 <= k < |d| ==> !IsLetterOrDigit(d[k]) && d[k] != ')'
    ensures forall k :: 0 <= k < |ops + d| ==> !IsLetterOrDigit((ops + d)[k]) && (ops + d)[k] != ')'
  {
  }

  /** Pushing a character that is neither a letter, a digit nor ')' keeps the stack so. */
  lemma PushPlain(ops: seq<char>, x: char)
    requires forall k :: 0 <= k < |ops| ==> !IsLetterOrDigit(ops[k]) && ops[k] != ')'
    requires !IsLetterOrDigit(x) && x != ')'
    ensures forall k :: 0 <= k < |ops + [x]| ==> !IsLetterOrDigit((ops + [x])[k]) && (ops + [x])[k] != ')'
  {
  }

  /** At a letter or digit, the counts: the character goes to the output and the '.'
      it may push to the stack. */
  lemma LetterCounts(regex: string, n: nat, out: string, ops: seq<char>)
    requires n < |regex| && IsLetterOrDigit(regex[n])
    requires multiset(out) + multiset(ops) + Opens(CountUpTo(regex, n, ')')) == multiset(FedUpTo(regex, n))
    ensures var dots: seq<char> := if JoinsNext(regex, n) then ['.'] else [];
      multiset(out + [regex[n]]) + multiset(ops + dots) + Opens(CountUpTo(regex, n + 1, ')'))
      == multiset(FedUpTo(regex, n + 1))
  {
    var dots: seq<char> := if JoinsNext(regex, n) then ['.'] else [];
    assert Fed(regex, n) == [regex[n]] + dots;
    assert multiset(FedUpTo(regex, n + 1)) == multiset(FedUpTo(regex, n)) + multiset{regex[n]} + multiset(dots);
  }

  /** The step at '(' keeps `Inv`. */
  lemma OpenStep(regex: string, n: nat, s: Scan)
    requires n < |regex| && Inv(regex, n, s) && regex[n] == '('
    ensures Inv(regex, n + 1, Scan(s.ops + ['('], s.out))
  {
    assert Letters(s.out) == Letters(regex[..n + 1]) by {
      PrefixLetters(regex, n);
    }
    OpenCounts(regex, n, s.out, s.ops);
    PushPlain(s.ops, '(');
    InvIntro(regex, n + 1, Scan(s.ops + ['('], s.out));
  }

  /** At '(', the counts: the '(' read is pushed. */
  lemma OpenCounts(regex: string, n: nat, out: string, ops: seq<char>)
    requires n < |regex| && regex[n] == '('
    requires multiset(out) + multiset(ops) + Opens(CountUpTo(regex, n, ')')) == multiset(FedUpTo(regex, n))
    ensures multiset(out) + multiset(ops + ['(']) + Opens(CountUpTo(regex, n + 1, ')')) == multiset(FedUpTo(regex, n + 1))
  {
    assert FedUpTo(regex, n + 1) == FedUpTo(regex, n) + ['('];
  }

  /** The step at ')' keeps `Inv`: the popped characters move to the output and the
      dropped '(' is paid for by the ')' just read. */
  lemma CloseStep(regex: string, n: nat, s: Scan)
    requires n < |regex| && Inv(regex, n, s) && regex[n] == ')' && Step(regex, n, s).Some?
    ensures Inv(regex, n + 1, Step(regex, n, s).value)
  {
    PopToOpenShape(s.ops, s.out);
    var p := PopToOpen(s.ops, s.out).value;
    var k := |p.0|;
    assert Step(regex, n, s).value == Scan(p.0, p.1);
    assert Letters(p.1) == Letters(regex[..n + 1]) by {
      PoppedPlain(s.ops, k + 1);
      PrefixLetters(regex, n);
      CloseLetters(s.out, s.ops[k + 1..]);
    }
    assert ')' !in p.1 && '(' !in p.1 by {
      PoppedPlain(s.ops, k + 1);
    }
    assert forall i :: 0 <= i < |p.0| ==> !IsLetterOrDigit(p.0[i]) && p.0[i] != ')' by {
      assert forall i :: 0 <= i < |p.0| ==> p.0[i] == s.ops[i];
    }
    assert multiset(p.1) + multiset(p.0) + Opens(CountUpTo(regex, n + 1, ')')) == multiset(FedUpTo(regex, n + 1)) by {
      CloseCounts(regex, n, s.out, s.ops, k);
    }
    InvIntro(regex, n + 1, Scan(p.0, p.1));
  }

  /** The letters of the input prefix grow by the character read. */
  lemma PrefixLetters(regex: string, n: nat)
    requires n < |regex|
    ensures IsLetterOrDigit(regex[n]) ==> Letters(regex[..n + 1]) == Letters(regex[..n]) + [regex[n]]
    ensures !IsLetterOrDigit(regex[n]) ==> Letters(regex[..n + 1]) == Letters(regex[..n])
  {
    assert regex[..n + 1] == regex[..n] + [regex[n]];
    LettersSnoc(regex[..n], regex[n]);
    assert Letters(regex[..n]) + [] == Letters(regex[..n]);
  }

  /** Popped operators add no letters to the output. */
  lemma CloseLetters(out: string, q: seq<char>)
    requires Letters(Reversed(q)) == []
    ensures Letters(out + Reversed(q)) == Letters(out)
  {
    LettersAppend(out, Reversed(q));
  }

  /** At ')', the counts: the popped characters move to the output and the dropped '('
      is paid for by the ')' read. */
  lemma CloseCounts(regex: string, n: nat, out: string, ops: seq<char>, k: nat)
    requires n < |regex| && regex[n] == ')' && k < |ops| && ops[k] == '('
    requires multiset(out) + multiset(ops) + Opens(CountUpTo(regex, n, ')')) == multiset(FedUpTo(regex, n))
    ensures multiset(out + Reversed(ops[k + 1..])) + multiset(ops[..k]) + Opens(CountUpTo(regex, n + 1, ')'))
            == multiset(FedUpTo(regex, n + 1))
  {
    var q := ops[k + 1..];
    assert ops == ops[..k] + ['('] + q;
    ReversedMultiset(q);
    assert FedUpTo(regex, n + 1) == FedUpTo(regex, n);
    assert Opens(CountUpTo(regex, n + 1, ')')) == Opens(CountUpTo(regex, n, ')')) + multiset{'('};
  }

  /** The step at an operator (any other character) keeps `Inv`. */
  lemma OperatorStep(regex: string, n: nat, s: Scan)
    requires n < |regex| && Inv(regex, n, s) && Step(regex, n, s).Some?
    requires !IsLetterOrDigit(regex[n]) && regex[n] != '(' && regex[n] != ')'
    ensures Inv(regex, n + 1, Step(regex, n, s).value)
  {
    var c := regex[n];
    PopWhileBindsShape(c, s.ops, s.out);
    var p := PopWhileBinds(c, s.ops, s.out).value;
    var k := |p.0|;
    assert Step(regex, n, s).value == Scan(p.0 + [c], p.1);
    assert Letters(p.1) == Letters(regex[..n + 1]) by {
      PoppedPlain(s.ops, k);
      PrefixLetters(regex, n);
      CloseLetters(s.out, s.ops[k..]);
    }
    assert ')' !in p.1 && '(' !in p.1 by {
      PoppedPlain(s.ops, k);
    }
    assert forall i :: 0 <= i < |p.0 + [c]| ==> !IsLetterOrDigit((p.0 + [c])[i]) && (p.0 + [c])[i] != ')' by {
      assert forall i :: 0 <= i < |p.0| ==> p.0[i] == s.ops[i];
      PushPlain(p.0, c);
    }
    assert multiset(p.1) + multiset(p.0 + [c]) + Opens(CountUpTo(regex, n + 1, ')')) == multiset(FedUpTo(regex, n + 1)) by {
      OperatorCounts(regex, n, s.out, s.ops, k);
    }
    InvIntro(regex, n + 1, Scan(p.0 + [c], p.1));
  }

  /** At an operator, the counts: the popped characters move to the output and the
      operator read is pushed. */
  lemma OperatorCounts(regex: string, n: nat, out: string, ops: seq<char>, k: nat)
    requires n < |regex| && !IsLetterOrDigit(regex[n]) && regex[n] != '(' && regex[n] != ')' && k <= |ops|
    requires multiset(out) + multiset(ops) + Opens(CountUpTo(regex, n, ')')) == multiset(FedUpTo(regex, n))
    ensures multiset(out + Reversed(ops[k..])) + multiset(ops[..k] + [regex[n]]) + Opens(CountUpTo(regex, n + 1, ')'))
            == multiset(FedUpTo(regex, n + 1))
  {
    var q := ops[k..];
    assert ops == ops[..k] + q;
    ReversedMultiset(q);
    assert FedUpTo(regex, n + 1) == FedUpTo(regex, n) + [regex[n]];
  }

  /** `Inv` from its parts. */
  lemma InvIntro(regex: string, n: nat, s: Scan)
    requires n <= |regex|
    requires Letters(s.out) == Letters(regex[..n])
    requires forall k :: 0 <= k < |s.ops| ==> !IsLetterOrDigit(s.ops[k]) && s.ops[k] != ')'
    requires ')' !in s.out && '(' !in s.out
    requires multiset(s.out) + multiset(s.ops) + Opens(CountUpTo(regex, n, ')')) == multiset(FedUpTo(regex, n))
    ensures Inv(regex, n, s)
  {
  }

  /** Every step of the pass keeps `Inv`. */
  lemma StepInv(regex: string, n: nat, s: Scan)
    requires n < |regex| && Inv(regex, n, s) && Step(regex, n, s).Some?
    ensures Inv(regex, n + 1, Step(regex, n, s).value)
  {
    var c := regex[n];
    if IsLetterOrDigit(c) {
      LetterStep(regex, n, s);
    } else if c == '(' {
      OpenStep(regex, n, s);
      assert Step(regex, n, s).value == Scan(s.ops + ['('], s.out);
    } else if c == ')' {
      CloseStep(regex, n, s);
    } else {
      OperatorStep(regex, n, s);
    }
  }

  /** `Inv` holds after every prefix the pass gets through. */
  lemma {:induction false} RunInv(regex: string, n: nat)
    requires n <= |regex| && Run(regex, n).Some?
    ensures Inv(regex, n, Run(regex, n).value)
  {
    if n == 0 {
      InvStart(regex);
    } else {
      RunInv(regex, n - 1);
      var prev := Run(regex, n - 1).value;
      assert Run(regex, n) == Step(regex, n - 1, prev);
      StepInv(regex, n - 1, prev);
    }
  }

  /** Before the first character: nothing read, nothing stacked. */
  lemma InvStart(regex: string)
    ensures Inv(regex, 0, Scan([], []))
  {
    assert regex[..0] == [];
  }

  /** The letters and digits of the result are those of the input, in input order, and
      the result never holds ')'. */
  lemma PostfixKeepsOperands(regex: string)
    requires Postfix(regex).Some?
    ensures Letters(Postfix(regex).value) == Letters(regex)
    ensures ')' !in Postfix(regex).value
  {
    var s := Run(regex, |regex|).value;
    RunInv(regex, |regex|);
    PoppedPlain(s.ops, 0);
    assert s.ops[0..] == s.ops;
    assert regex[..|regex|] == regex;
    LettersAppend(s.out, Reversed(s.ops));
  }

  /** The result is a rearrangement of what the input feeds in: each character but ')',
      and the implicit '.'s, less one '(' per ')'. */
  lemma PostfixPermutes(regex: string)
    requires Postfix(regex).Some?
    ensures multiset(Postfix(regex).value) + Opens(multiset(regex)[')']) == multiset(FedUpTo(regex, |regex|))
  {
    var s := Run(regex, |regex|).value;
    RunInv(regex, |regex|);
    ReversedMultiset(s.ops);
    CountUpToMultiset(regex, |regex|, ')');
    assert regex[..|regex|] == regex;
  }

  /** Every '(' fed is one read. */
  lemma FedOpens(regex: string, n: nat)
    requires n <= |regex|
    ensures multiset(FedUpTo(regex, n))['('] == CountUpTo(regex, n, '(')
  {
    var i := 0;
    assert FedUpTo(regex, 0) == [];
    while i < n
      invariant i <= n && multiset(FedUpTo(regex, i))['('] == CountUpTo(regex, i, '(')
    {
      FedOpensStep(regex, i + 1);
      i := i + 1;
    }
  }

  /** One more character keeps the '(' counts of the input and of what it feeds equal. */
  lemma FedOpensStep(regex: string, n: nat)
    requires 0 < n <= |regex|
    requires multiset(FedUpTo(regex, n - 1))['('] == CountUpTo(regex, n - 1, '(')
    ensures multiset(FedUpTo(regex, n))['('] == CountUpTo(regex, n, '(')
  {
    FedOpen(regex, n);
  }

  /** The character before position n feeds a '(' exactly when it is one. */
  lemma FedOpen(regex: string, n: nat)
    requires 0 < n <= |regex|
    ensures multiset(FedUpTo(regex, n))['('] == multiset(FedUpTo(regex, n - 1))['('] + if regex[n - 1] == '(' then 1 else 0
  {
    var a, b := FedUpTo(regex, n - 1), Fed(regex, n - 1);
    assert multiset(a + b) == multiset(a) + multiset(b);
    if IsLetterOrDigit(regex[n - 1]) {
      assert multiset(b) == multiset{regex[n - 1]} + multiset(if JoinsNext(regex, n - 1) then ['.'] else []);
    }
  }

  /** With as many ')' as '(' the result holds no '(' either. */
  lemma PostfixBalanced(regex: string)
    requires Postfix(regex).Some? && multiset(regex)['('] == multiset(regex)[')']
    ensures '(' !in Postfix(regex).value
  {
    var s := Run(regex, |regex|).value;
    RunInv(regex, |regex|);
    FedOpens(regex, |regex|);
    CountUpToMultiset(regex, |regex|, '(');
    CountUpToMultiset(regex, |regex|, ')');
    assert regex[..|regex|] == regex;
    assert multiset(s.ops)['('] == 0 by {
      assert multiset(s.out)['('] == 0;
    }
    PoppedPlain(s.ops, 0);
    assert s.ops[0..] == s.ops;
  }

  /** A ')' with no '(' open fails the conversion. */
  lemma PostfixUnmatchedClose()
    ensures Postfix("a)") == None
  {
    var r := "a)";
    assert r[0] == 'a' && r[1] == ')';
    assert [] + [r[0]] == [r[0]];
    assert Run(r, 1) == Some(Scan([], [r[0]]));
    assert Run(r, 2) == None;
  }

  /** An unbalanced '(' is output at the end: "(a" becomes "a(". */
  lemma PostfixUnclosedOpen()
    ensures Postfix("(a") == Some("a(")
  {
    var r := "(a";
    assert r[0] == '(' && r[1] == 'a';
    assert [] + [r[0]] == [r[0]];
    assert Run(r, 1) == Some(Scan([r[0]], []));
    assert [] + [r[1]] == [r[1]];
    assert Run(r, 2) == Some(Scan([r[0]], [r[1]]));
    assert Reversed([r[0]]) == [r[0]];
    assert [r[1]] + [r[0]] == "a(";
  }

  /** A character with no precedence is pushed when the stack is empty: "a-b" converts. */
  lemma PostfixUnknownOperator()
    ensures Postfix("a-b") == Some("ab-")
  {
    var r := "a-b";
    assert r[0] == 'a' && r[1] == '-' && r[2] == 'b';
    assert [] + [r[0]] == [r[0]];
    assert Run(r, 1) == Some(Scan([], [r[0]]));
    assert [] + [r[1]] == [r[1]];
    assert Run(r, 2) == Some(Scan([r[1]], [r[0]]));
    assert Run(r, 3) == Some(Scan([r[1]], [r[0]] + [r[2]]));
    assert Reversed([r[1]]) == [r[1]];
    assert [r[0]] + [r[2]] + [r[1]] == "ab-";
  }

  /** ... and the lookup fails the next time it is compared: "a-b-c" does not. */
  lemma PostfixUnknownOperatorCompared()
    ensures Postfix("a-b-c") == None
  {
    var r := "a-b-c";
    assert r[0] == 'a' && r[1] == '-' && r[2] == 'b' && r[3] == '-';
    assert [] + [r[0]] == [r[0]];
    assert Run(r, 1) == Some(Scan([], [r[0]]));
    assert [] + [r[1]] == [r[1]];
    assert Run(r, 2) == Some(Scan([r[1]], [r[0]]));
    assert Run(r, 3) == Some(Scan([r[1]], [r[0]] + [r[2]]));
    assert Run(r, 4) == None;
    RunFails(r, 4);
  }

  /** The '.' after a letter is pushed without popping; "ab|c" gives "ab.c|". */
  lemma PostfixJoins()
    ensures Postfix("ab|c") == Some("ab.c|")
  {
    var r := "ab|c";
    JoinsUnion();
    assert r[3] == 'c' && r[2] == '|';
    assert Run(r, 4) == Some(Scan(['|'], ['a', 'b', '.'] + [r[3]]));
    assert Reversed(['|']) == ['|'];
    assert ['a', 'b', '.'] + [r[3]] + ['|'] == "ab.c|";
  }

  /** The first two characters of "ab|c": both operands out, one '.' pending. */
  lemma JoinsScan()
    ensures Run("ab|c", 2) == Some(Scan(['.'], ['a', 'b']))
  {
    var r := "ab|c";
    assert r[0] == 'a' && r[1] == 'b';
    assert [] + [r[0]] == [r[0]] && [] + ['.'] == ['.'];
    assert Run(r, 1) == Some(Scan(['.'], [r[0]]));
    assert [r[0]] + [r[1]] == [r[0], r[1]];
  }

  /** The '|' of "ab|c" pops the pending '.' (which binds tighter) before it is pushed. */
  lemma JoinsUnion()
    ensures Run("ab|c", 3) == Some(Scan(['|'], ['a', 'b', '.']))
  {
    var r := "ab|c";
    JoinsScan();
    assert r[2] == '|';
    assert ['.'][..0] == [];
    assert Precedence(r[2]) == Some(1) && Precedence('.') == Some(2);
    assert ['a', 'b'] + ['.'] == ['a', 'b', '.'];
    assert PopWhileBinds(r[2], ['.'], ['a', 'b']) == Some(([], ['a', 'b', '.']));
    assert [] + [r[2]] == [r[2]];
  }

  /** No '.' is inserted after an operator: "a*b" gives "ab*". */
  lemma PostfixNoJoinAfterOperator()
    ensures Postfix("a*b") == Some("ab*")
  {
    var r := "a*b";
    assert r[0] == 'a' && r[1] == '*' && r[2] == 'b';
    assert [] + [r[0]] == [r[0]];
    assert Run(r, 1) == Some(Scan([], [r[0]]));
    assert [] + [r[1]] == [r[1]];
    assert Run(r, 2) == Some(Scan([r[1]], [r[0]]));
    assert !JoinsNext(r, 2);
    assert Run(r, 3) == Some(Scan([r[1]], [r[0]] + [r[2]]));
    assert Reversed([r[1]]) == [r[1]];
    assert Postfix(r) == Some([r[0]] + [r[2]] + [r[1]]);
    assert [r[0]] + [r[2]] + [r[1]] == "ab*";
  }

  /** The program's loop, with the stack as a sequence whose top is its last element;
      it returns `None` where the program throws. */
  method ToPostfix(regex: string) returns (r: Option<string>)
    ensures r == Postfix(regex)
  {
    var operators: seq<char> := [];
    var postfix: string := "";
    var i := 0;
    while i < |regex|
      invariant i <= |regex| && Run(regex, i) == Some(Scan(operators, postfix))
    {
      var c := regex[i];
      RunStep(regex, i);
      if IsLetterOrDigit(c) {
        postfix := postfix + [c];
        if i + 1 < |regex| && (IsLetterOrDigit(regex[i + 1]) || regex[i + 1] == '(') {
          operators := operators + ['.'];
        }
      } else if c == '(' {
        operators := operators + [c];
      } else if c == ')' {
        var popped := PopGroup(operators, postfix);
        if popped.None? {
          RunFails(regex, i + 1);
          return None;
        }
        operators, postfix := popped.value.0, popped.value.1;
      } else {
        var popped := PopBinding(c, operators, postfix);
        if popped.None? {
          RunFails(regex, i + 1);
          return None;
        }
        operators, postfix := popped.value.0 + [c], popped.value.1;
      }
      i := i + 1;
    }
    ghost var result := postfix + Reversed(operators);
    while |operators| > 0
      invariant postfix + Reversed(operators) == result
      decreases |operators|
    {
      postfix := postfix + [operators[|operators| - 1]];
      operators := operators[..|operators| - 1];
    }
    assert postfix + Reversed(operators) == postfix;
    r := Some(postfix);
  }

  /** The `)` case of `ToPostfix`: pop operators onto the output until '(' is on top,
      then drop the '('; `None` where the program peeks an empty stack. */
  method PopGroup(operators: seq<char>, postfix: string) returns (r: Option<(seq<char>, string)>)
    ensures r == PopToOpen(operators, postfix)
  {
    var ops, out := operators, postfix;
    while |ops| == 0 || ops[|ops| - 1] != '('
      invariant PopToOpen(ops, out) == PopToOpen(operators, postfix)
      decreases |ops|
    {
      if |ops| == 0 {
        return None;
      }
      out := out + [ops[|ops| - 1]];
      ops := ops[..|ops| - 1];
    }
    r := Some((ops[..|ops| - 1], out));
  }

  /** The operator case of `ToPostfix` before the push: pop the operators that bind at
      least as tightly as c, stopping at '(' or an empty stack; `None` where a precedence
      lookup misses. */
  method PopBinding(c: char, operators: seq<char>, postfix: string) returns (r: Option<(seq<char>, string)>)
    ensures r == PopWhileBinds(c, operators, postfix)
  {
    var ops, out := operators, postfix;
    while |ops| > 0 && ops[|ops| - 1] != '('
      invariant PopWhileBinds(c, ops, out) == PopWhileBinds(c, operators, postfix)
      decreases |ops|
    {
      var top := ops[|ops| - 1];
      if c !in PrecedenceTable || top !in PrecedenceTable {
        return None;
      }
      if PrecedenceTable[c] > PrecedenceTable[top] {
        break;
      }
      out := out + [top];
      ops := ops[..|ops| - 1];
    }
    r := Some((ops, out));
  }

  /** Once the pass fails it stays failed. */
  lemma {:induction false} RunFails(regex: string, n: nat)
    requires n <= |regex| && Run(regex, n).None?
    ensures Postfix(regex).None?
    decreases |regex| - n
  {
    if n < |regex| {
      RunStep(regex, n);
      RunFails(regex, n + 1);
    }
  }
}
