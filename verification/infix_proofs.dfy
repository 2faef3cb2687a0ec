/** What evaluateInfixExpression computes. */
module InfixProofs {
  import opened Results
  import opened BoundedStack
  import opened Operators
  import opened Fragments
  import opened ExpressionEvaluator
  import opened Notation
  import PostfixProofs

  /** One iteration of the scanning loop, for each kind of fragment on top
      of the input stack. */
  lemma StepOperand(xs: seq<Fragment>, x: Fragment, cap: nat, c: Conversion)
    requires x.Operand? && PendingOnly(c.operators) && Fits(c)
    requires |xs| + 1 + Count(c.output) + Count(c.operators) <= Size(c.output)
    ensures ShuntingYard(Stack(xs + [x], cap), c)
         == ShuntingYard(Stack(xs, cap), Conversion(Stack(c.output.elements + [x], Size(c.output)), c.operators))
  {
    assert (xs + [x])[..|xs|] == xs;
  }

  lemma StepOpen(xs: seq<Fragment>, cap: nat, c: Conversion)
    requires PendingOnly(c.operators) && Fits(c)
    requires |xs| + 1 + Count(c.output) + Count(c.operators) <= Size(c.output)
    ensures ShuntingYard(Stack(xs + [OpenBracket], cap), c)
         == ShuntingYard(Stack(xs, cap), Conversion(c.output, Stack(c.operators.elements + [OpenBracket], Size(c.operators))))
  {
    assert (xs + [OpenBracket])[..|xs|] == xs;
  }

  lemma StepClose(xs: seq<Fragment>, cap: nat, c: Conversion)
    requires PendingOnly(c.operators) && Fits(c)
    requires |xs| + 1 + Count(c.output) + Count(c.operators) <= Size(c.output)
    ensures var moved := PopUntilOpen(c);
      ShuntingYard(Stack(xs + [CloseBracket], cap), c)
      == if IsEmpty(moved.operators) then Err(InvalidExpression)
         else ShuntingYard(Stack(xs, cap), Conversion(moved.output, Pop(moved.operators).value.stack))
  {
    assert (xs + [CloseBracket])[..|xs|] == xs;
  }

  lemma StepOperator(xs: seq<Fragment>, o: Operator, cap: nat, c: Conversion)
    requires PendingOnly(c.operators) && Fits(c)
    requires |xs| + 1 + Count(c.output) + Count(c.operators) <= Size(c.output)
    ensures var moved := PopWhileYielding(c, o);
      ShuntingYard(Stack(xs + [Operation(o)], cap), c)
      == ShuntingYard(Stack(xs, cap), Conversion(moved.output, Stack(moved.operators.elements + [Operation(o)], Size(moved.operators))))
  {
    assert (xs + [Operation(o)])[..|xs|] == xs;
  }

  /** Bracket nesting read off the fragments alone: no close bracket without
      an earlier unmatched open bracket, none left open at the end. The
      shapes "(" / "[" and ")" / "]" play no part. */
  function BracketsBalance(xs: seq<Fragment>, depth: nat): bool {
    if xs == [] then depth == 0
    else match xs[0]
      case OpenBracket => BracketsBalance(xs[1..], depth + 1)
      case CloseBracket => depth > 0 && BracketsBalance(xs[1..], depth - 1)
      case _ => BracketsBalance(xs[1..], depth)
  }

  /** Without a close bracket, the brackets balance exactly when nothing is
      open and nothing opens. */
  lemma {:induction false} NoCloseBalance(xs: seq<Fragment>, depth: nat)
    requires CloseBracket !in xs
    ensures BracketsBalance(xs, depth) <==> depth == 0 && OpenBracket !in xs
    decreases |xs|
  {
    if xs != [] {
      assert CloseBracket !in xs[1..];
      NoCloseBalance(xs[1..], if xs[0] == OpenBracket then depth + 1 else depth);
      assert xs == [xs[0]] + xs[1..];
    }
  }

  /** Without an open bracket, the brackets balance exactly when nothing
      closes. */
  lemma {:induction false} NoOpenBalance(xs: seq<Fragment>)
    requires OpenBracket !in xs
    ensures BracketsBalance(xs, 0) <==> CloseBracket !in xs
    decreases |xs|
  {
    if xs != [] {
      assert OpenBracket !in xs[1..];
      NoOpenBalance(xs[1..]);
      assert xs == [xs[0]] + xs[1..];
    }
  }

  function OpenCount(s: Stack<Fragment>): nat {
    multiset(s.elements)[OpenBracket]
  }

  /** With the input exhausted and no open bracket pending, the pending
      operators are output in the order they are popped. */
  lemma DrainAll(cap: nat, c: Conversion)
    requires PendingOnly(c.operators) && Fits(c) && OpenBracket !in c.operators.elements
    ensures ShuntingYard(Stack([], cap), c)
         == Ok(Stack(c.output.elements + Reverse(c.operators.elements), Size(c.output)))
  {
    assert CloseBracket !in c.operators.elements;
  }

  lemma {:induction false} DrainSucceedsIffNoOpen(c: Conversion)
    requires PendingOnly(c.operators) && Fits(c)
    ensures Drain(c).Ok? <==> OpenCount(c.operators) == 0
  {
    assert CloseBracket !in c.operators.elements;
    assert OpenBracket in c.operators.elements <==> OpenCount(c.operators) > 0;
  }

  /** The scan succeeds exactly when the brackets of the remaining input
      balance, counting the open brackets already pending. */
  lemma {:induction false} ShuntingYardBalance(xs: seq<Fragment>, cap: nat, c: Conversion)
    requires PendingOnly(c.operators) && Fits(c)
    requires |xs| + Count(c.output) + Count(c.operators) <= Size(c.output)
    ensures ShuntingYard(Stack(Reverse(xs), cap), c).Ok? <==> BracketsBalance(xs, OpenCount(c.operators))
    decreases |xs|, 3
  {
    if xs == [] {
      DrainSucceedsIffNoOpen(c);
    } else {
      assert Reverse(xs) == Reverse(xs[1..]) + [xs[0]];
      match xs[0]
      case Operand(_) =>
        StepOperand(Reverse(xs[1..]), xs[0], cap, c);
        ShuntingYardBalance(xs[1..], cap, Conversion(Stack(c.output.elements + [xs[0]], Size(c.output)), c.operators));
      case OpenBracket =>
        BalanceOpen(xs, cap, c);
      case CloseBracket =>
        BalanceClose(xs, cap, c);
      case Operation(o) =>
        BalanceOperator(xs, o, cap, c);
    }
  }

  lemma {:induction false} BalanceOpen(xs: seq<Fragment>, cap: nat, c: Conversion)
    requires xs != [] && xs[0] == OpenBracket
    requires PendingOnly(c.operators) && Fits(c)
    requires |xs| + Count(c.output) + Count(c.operators) <= Size(c.output)
    ensures ShuntingYard(Stack(Reverse(xs), cap), c).Ok? <==> BracketsBalance(xs, OpenCount(c.operators))
    decreases |xs|, 2
  {
    var rest := StepOpenFirst(xs, cap, c);
    ShuntingYardBalance(xs[1..], cap, rest);
    BalanceAfterOpen(xs, OpenCount(c.operators));
  }

  lemma BalanceAfterOpen(xs: seq<Fragment>, depth: nat)
    requires xs != [] && xs[0] == OpenBracket
    ensures BracketsBalance(xs, depth) == BracketsBalance(xs[1..], depth + 1)
  {
  }

  /** StepOpen, for an input given first fragment first: the scan goes on
      from a state with one open bracket more pending. */
  lemma StepOpenFirst(xs: seq<Fragment>, cap: nat, c: Conversion) returns (rest: Conversion)
    requires xs != [] && xs[0] == OpenBracket
    requires PendingOnly(c.operators) && Fits(c)
    requires |xs| + Count(c.output) + Count(c.operators) <= Size(c.output)
    ensures PendingOnly(rest.operators) && Fits(rest)
    ensures |xs[1..]| + Count(rest.output) + Count(rest.operators) <= Size(rest.output)
    ensures OpenCount(rest.operators) == OpenCount(c.operators) + 1
    ensures ShuntingYard(Stack(Reverse(xs), cap), c) == ShuntingYard(Stack(Reverse(xs[1..]), cap), rest)
  {
    rest := Conversion(c.output, Stack(c.operators.elements + [OpenBracket], Size(c.operators)));
    OpenCountPushOpen(c.operators);
    ReverseFirst(xs);
    StepOpen(Reverse(xs[1..]), cap, c);
  }

  /** Pushing "(" adds one pending open bracket. */
  lemma OpenCountPushOpen(ops: Stack<Fragment>)
    ensures OpenCount(Stack(ops.elements + [OpenBracket], Size(ops))) == OpenCount(ops) + 1
  {
    assert multiset(ops.elements + [OpenBracket]) == multiset(ops.elements) + multiset{OpenBracket};
  }

  /** The close-bracket loop moves no open bracket, and stops on an empty
      stack exactly when no open bracket is pending. */
  lemma PopUntilOpenKeepsOpenCount(c: Conversion)
    requires PendingOnly(c.operators) && Fits(c)
    ensures OpenCount(PopUntilOpen(c).operators) == OpenCount(c.operators)
    ensures IsEmpty(PopUntilOpen(c).operators) <==> OpenCount(c.operators) == 0
  {
    var moved := PopUntilOpen(c);
    PopUntilOpenShape(c);
    var ops := c.operators.elements;
    var k := Count(moved.operators);
    OpenCountSplit(ops, k);
    assert multiset(ops[k..])[OpenBracket] == 0;
    if !IsEmpty(moved.operators) {
      assert moved.operators.elements[k - 1] == OpenBracket;
      assert OpenBracket in moved.operators.elements;
    }
  }

  /** Open brackets below position k and above it add up. */
  lemma OpenCountSplit(xs: seq<Fragment>, k: nat)
    requires k <= |xs|
    ensures multiset(xs)[OpenBracket] == multiset(xs[..k])[OpenBracket] + multiset(xs[k..])[OpenBracket]
  {
    assert xs == xs[..k] + xs[k..];
  }

  lemma {:induction false} BalanceClose(xs: seq<Fragment>, cap: nat, c: Conversion)
    requires xs != [] && xs[0] == CloseBracket
    requires PendingOnly(c.operators) && Fits(c)
    requires |xs| + Count(c.output) + Count(c.operators) <= Size(c.output)
    ensures ShuntingYard(Stack(Reverse(xs), cap), c).Ok? <==> BracketsBalance(xs, OpenCount(c.operators))
    decreases |xs|, 2
  {
    var moved := PopUntilOpen(c);
    PopUntilOpenKeepsOpenCount(c);
    if IsEmpty(moved.operators) {
      UnmatchedClose(xs, cap, c);
    } else {
      MatchedClose(xs, cap, c);
    }
  }

  /** A ")" with no "(" pending fails the scan. */
  lemma UnmatchedClose(xs: seq<Fragment>, cap: nat, c: Conversion)
    requires xs != [] && xs[0] == CloseBracket
    requires PendingOnly(c.operators) && Fits(c)
    requires |xs| + Count(c.output) + Count(c.operators) <= Size(c.output)
    requires IsEmpty(PopUntilOpen(c).operators)
    ensures ShuntingYard(Stack(Reverse(xs), cap), c).Err?
  {
    StepCloseFirst(xs, cap, c);
  }

  lemma {:induction false} MatchedClose(xs: seq<Fragment>, cap: nat, c: Conversion)
    requires xs != [] && xs[0] == CloseBracket
    requires PendingOnly(c.operators) && Fits(c)
    requires |xs| + Count(c.output) + Count(c.operators) <= Size(c.output)
    requires !IsEmpty(PopUntilOpen(c).operators) && OpenCount(c.operators) > 0
    ensures ShuntingYard(Stack(Reverse(xs), cap), c).Ok? <==> BracketsBalance(xs[1..], OpenCount(c.operators) - 1)
    decreases |xs|, 1
  {
    var rest := StepCloseMatched(xs, cap, c);
    ShuntingYardBalance(xs[1..], cap, rest);
  }

  /** StepClose, when the close bracket finds its "(": the scan goes on
      from a state with one open bracket fewer pending. */
  lemma StepCloseMatched(xs: seq<Fragment>, cap: nat, c: Conversion) returns (rest: Conversion)
    requires xs != [] && xs[0] == CloseBracket
    requires PendingOnly(c.operators) && Fits(c)
    requires |xs| + Count(c.output) + Count(c.operators) <= Size(c.output)
    requires !IsEmpty(PopUntilOpen(c).operators)
    ensures PendingOnly(rest.operators) && Fits(rest)
    ensures |xs[1..]| + Count(rest.output) + Count(rest.operators) <= Size(rest.output)
    ensures OpenCount(c.operators) > 0 && OpenCount(rest.operators) == OpenCount(c.operators) - 1
    ensures ShuntingYard(Stack(Reverse(xs), cap), c) == ShuntingYard(Stack(Reverse(xs[1..]), cap), rest)
  {
    var moved := PopUntilOpen(c);
    PopUntilOpenKeepsOpenCount(c);
    MatchedBracketOnTop(c);
    OpenCountPopOpen(moved.operators);
    rest := Conversion(moved.output, Pop(moved.operators).value.stack);
    StepCloseFirst(xs, cap, c);
  }

  /** What the close-bracket loop leaves when it finds a "(". */
  lemma MatchedBracketOnTop(c: Conversion)
    requires PendingOnly(c.operators) && Fits(c)
    requires !IsEmpty(PopUntilOpen(c).operators)
    ensures var moved := PopUntilOpen(c);
      && PendingOnly(moved.operators) && Fits(moved)
      && Peek(moved.operators) == Ok(OpenBracket)
      && Count(moved.output) + Count(moved.operators) == Count(c.output) + Count(c.operators)
      && Size(moved.output) == Size(c.output)
  {
  }

  /** StepClose, for an input given first fragment first. */
  lemma StepCloseFirst(xs: seq<Fragment>, cap: nat, c: Conversion)
    requires xs != [] && xs[0] == CloseBracket
    requires PendingOnly(c.operators) && Fits(c)
    requires |xs| + Count(c.output) + Count(c.operators) <= Size(c.output)
    ensures var moved := PopUntilOpen(c);
      ShuntingYard(Stack(Reverse(xs), cap), c)
      == if IsEmpty(moved.operators) then Err(InvalidExpression)
         else ShuntingYard(Stack(Reverse(xs[1..]), cap), Conversion(moved.output, Pop(moved.operators).value.stack))
  {
    assert Reverse(xs) == Reverse(xs[1..]) + [CloseBracket];
    StepClose(Reverse(xs[1..]), cap, c);
  }

  /** Popping a "(" from the top removes one pending open bracket. */
  lemma OpenCountPopOpen(ops: Stack<Fragment>)
    requires Peek(ops) == Ok(OpenBracket)
    ensures OpenCount(ops) == OpenCount(Pop(ops).value.stack) + 1
  {
    var popped := Pop(ops).value;
    assert ops.elements == popped.stack.elements + [OpenBracket];
    assert multiset(ops.elements) == multiset(popped.stack.elements) + multiset{OpenBracket};
  }

  /** The operator case moves no open bracket. */
  lemma {:induction false} PopWhileYieldingKeepsOpenCount(c: Conversion, o: Operator)
    requires PendingOnly(c.operators) && Fits(c)
    ensures OpenCount(PopWhileYielding(c, o).operators) == OpenCount(c.operators)
    decreases Count(c.operators)
  {
    if !(IsEmpty(c.operators) || Peek(c.operators).value.OpenBracket?) {
      var top := Peek(c.operators).value;
      StopTestMeansNotYielding(top.op, o);
      if Yields(top.op, o) {
        var m := MoveTop(c);
        assert c.operators.elements == m.operators.elements + [top];
        assert multiset(c.operators.elements) == multiset(m.operators.elements) + multiset{top};
        assert PopWhileYielding(c, o) == PopWhileYielding(m, o);
        PopWhileYieldingKeepsOpenCount(m, o);
      }
    }
  }

  /** The state after the operator case: the operator pushed, the open
      brackets pending unchanged. */
  function AfterOperator(c: Conversion, o: Operator): (r: Conversion)
    requires PendingOnly(c.operators) && Fits(c)
    requires Count(c.output) + Count(c.operators) < Size(c.output)
    ensures PendingOnly(r.operators) && Fits(r)
    ensures Count(r.output) + Count(r.operators) == Count(c.output) + Count(c.operators) + 1
    ensures OpenCount(r.operators) == OpenCount(c.operators)
  {
    var moved := PopWhileYielding(c, o);
    PopWhileYieldingKeepsOpenCount(c, o);
    var pushed := Stack(moved.operators.elements + [Operation(o)], Size(moved.operators));
    assert multiset(pushed.elements) == multiset(moved.operators.elements) + multiset{Operation(o)};
    Conversion(moved.output, pushed)
  }

  lemma {:induction false} BalanceOperator(xs: seq<Fragment>, o: Operator, cap: nat, c: Conversion)
    requires xs != [] && xs[0] == Operation(o)
    requires PendingOnly(c.operators) && Fits(c)
    requires |xs| + Count(c.output) + Count(c.operators) <= Size(c.output)
    ensures ShuntingYard(Stack(Reverse(xs), cap), c).Ok? <==> BracketsBalance(xs, OpenCount(c.operators))
    decreases |xs|, 2
  {
    assert Reverse(xs) == Reverse(xs[1..]) + [Operation(o)];
    StepOperator(Reverse(xs[1..]), o, cap, c);
    ShuntingYardBalance(xs[1..], cap, AfterOperator(c, o));
  }

  /**
    The conversion succeeds exactly when the brackets balance by count;
    every other failure of infix evaluation comes from the postfix
    evaluation of the converted output.
   */
  lemma InfixBracketsMustBalance(expression: Stack<Fragment>)
    requires expression.Valid()
    ensures InfixToPostfix(expression).Ok? <==> BracketsBalance(expression.elements, 0)
    ensures !BracketsBalance(expression.elements, 0) ==> EvaluateInfix(expression) == Err(InvalidExpression)
  {
    var cap := Size(expression);
    var empty: Stack<Fragment> := New(cap);
    ShuntingYardBalance(expression.elements, cap, Conversion(empty, empty));
  }

  /** No bracket among the fragments: what postfix evaluation accepts
      without an invalid-expression error. */
  predicate BracketFree(xs: seq<Fragment>) {
    forall f :: f in xs ==> f.Operand? || f.Operation?
  }

  /** Operators moved to the output in pop order keep it bracket-free. */
  lemma MovedBracketFree(out: seq<Fragment>, moved: seq<Fragment>)
    requires BracketFree(out) && forall i :: 0 <= i < |moved| ==> moved[i].Operation?
    ensures BracketFree(out + Reverse(moved))
  {
    ReverseIndex(moved);
    forall f | f in Reverse(moved)
      ensures f.Operation?
    {
      var i :| 0 <= i < |Reverse(moved)| && Reverse(moved)[i] == f;
      assert moved[|moved| - 1 - i] == f;
    }
  }

  /** The conversion never outputs a bracket: brackets are only pushed on
      the pending stack, and every loop that moves fragments to the output
      moves operators only. */
  lemma {:induction false} ShuntingYardBracketFree(input: Stack<Fragment>, c: Conversion)
    requires PendingOnly(c.operators) && Fits(c)
    requires Count(input) + Count(c.output) + Count(c.operators) <= Size(c.output)
    requires BracketFree(c.output.elements)
    ensures ShuntingYard(input, c).Ok? ==> BracketFree(ShuntingYard(input, c).value.elements)
    decreases Count(input), 1
  {
    if IsEmpty(input) {
      if Drain(c).Ok? {
        MovedBracketFree(c.output.elements, c.operators.elements);
      }
    } else {
      var next := Pop(input).value;
      match next.element
      case Operand(_) =>
        var pushed := Push(c.output, next.element);
        ShuntingYardBracketFree(next.stack, Conversion(pushed.stack, c.operators));
      case OpenBracket =>
        var pushed := Push(c.operators, next.element);
        ShuntingYardBracketFree(next.stack, Conversion(c.output, pushed.stack));
      case CloseBracket =>
        CloseBracketFree(input, c);
      case Operation(o) =>
        OperatorBracketFree(input, o, c);
    }
  }

  lemma {:induction false} CloseBracketFree(input: Stack<Fragment>, c: Conversion)
    requires PendingOnly(c.operators) && Fits(c)
    requires Count(input) + Count(c.output) + Count(c.operators) <= Size(c.output)
    requires BracketFree(c.output.elements)
    requires !IsEmpty(input) && Peek(input) == Ok(CloseBracket)
    ensures var moved := PopUntilOpen(c);
      BracketFree(moved.output.elements)
      && (!IsEmpty(moved.operators) ==>
            var rest := Conversion(moved.output, Pop(moved.operators).value.stack);
            ShuntingYard(Pop(input).value.stack, rest).Ok? ==> BracketFree(ShuntingYard(Pop(input).value.stack, rest).value.elements))
    decreases Count(input), 0
  {
    var ops := c.operators.elements;
    var moved := PopUntilOpen(c);
    PopUntilOpenShape(c);
    var k := Count(moved.operators);
    OperatorsAboveOpen(ops, k);
    MovedBracketFree(c.output.elements, ops[k..]);
    if !IsEmpty(moved.operators) {
      ShuntingYardBracketFree(Pop(input).value.stack, Conversion(moved.output, Pop(moved.operators).value.stack));
    }
  }

  /** Above the topmost open bracket, a pending stack holds operators
      only. */
  lemma OperatorsAboveOpen(ops: seq<Fragment>, k: nat)
    requires k <= |ops| && OpenBracket !in ops[k..]
    requires forall f :: f in ops ==> f.OpenBracket? || f.Operation?
    ensures forall i :: 0 <= i < |ops[k..]| ==> ops[k..][i].Operation?
  {
    forall i | 0 <= i < |ops[k..]|
      ensures ops[k..][i].Operation?
    {
      assert ops[k..][i] == ops[k + i] && ops[k + i] in ops;
    }
  }

  lemma {:induction false} OperatorBracketFree(input: Stack<Fragment>, o: Operator, c: Conversion)
    requires PendingOnly(c.operators) && Fits(c)
    requires Count(input) + Count(c.output) + Count(c.operators) <= Size(c.output)
    requires BracketFree(c.output.elements)
    requires !IsEmpty(input) && Peek(input) == Ok(Operation(o))
    ensures var moved := PopWhileYielding(c, o);
      var rest := Conversion(moved.output, Push(moved.operators, Operation(o)).stack);
      ShuntingYard(Pop(input).value.stack, rest).Ok? ==> BracketFree(ShuntingYard(Pop(input).value.stack, rest).value.elements)
    decreases Count(input), 0
  {
    var moved := PopWhileYielding(c, o);
    PopWhileYieldingShape(c, o);
    PopWhileYieldingMovesYielding(c, o);
    MovedBracketFree(c.output.elements, c.operators.elements[Count(moved.operators)..]);
    var pushed := Push(moved.operators, Operation(o));
    ShuntingYardBracketFree(Pop(input).value.stack, Conversion(moved.output, pushed.stack));
  }

  /** Postfix evaluation of bracket-free input can only run out of
      operands. */
  lemma {:induction false} PostfixVerdictBracketFree(xs: seq<Fragment>, depth: nat)
    requires BracketFree(xs)
    ensures PostfixProofs.PostfixVerdict(xs, depth) != Some(InvalidExpression)
    decreases |xs|
  {
    if xs != [] {
      assert xs[0] in xs;
      assert forall f :: f in xs[1..] ==> f in xs;
      match xs[0]
      case Operand(_) => PostfixVerdictBracketFree(xs[1..], depth + 1);
      case Operation(_) =>
        if depth >= 2 {
          PostfixVerdictBracketFree(xs[1..], depth - 1);
        }
    }
  }

  /**
    The two failures of infix evaluation are told apart by the brackets
    alone: an invalid expression exactly when the brackets do not balance,
    and otherwise only the empty-stack error of a missing operand.
   */
  lemma InfixInvalidIffUnbalanced(expression: Stack<Fragment>)
    requires expression.Valid()
    ensures EvaluateInfix(expression) == Err(InvalidExpression) <==> !BracketsBalance(expression.elements, 0)
    ensures BracketsBalance(expression.elements, 0) && EvaluateInfix(expression).Err? ==>
      EvaluateInfix(expression).error == EmptyStack
  {
    InfixBracketsMustBalance(expression);
    if BracketsBalance(expression.elements, 0) {
      var cap := Size(expression);
      var empty: Stack<Fragment> := New(cap);
      ShuntingYardBracketFree(Reversed(expression), Conversion(empty, empty));
      var postfix := InfixToPostfix(expression).value;
      PostfixProofs.PostfixErrors(postfix);
      PostfixVerdictBracketFree(postfix.elements, 0);
    }
  }
}
