/**
  The tokenizer and the three evaluators. Every evaluator consumes the
  fragment stack the tokenizer builds (first token at the bottom, last on
  top) and returns the resulting value or the error that escapes.
 */
module ExpressionEvaluator {
  import opened Results
  import opened BoundedStack
  import opened Operators
  import opened Fragments

  /**
    Classifies one token by trying the constructors in the fixed order
    Operator, Operand, OpenBracket, CloseBracket; a token none accepts is
    an invalid expression. Because the accepted sets are disjoint, each
    outcome is characterised by the token alone, whatever the trial order.
   */
  function Classify(token: string, isNumber: NumberSyntax): (r: Result<Fragment>)
    ensures r.Ok? <==> token in OperatorSymbols || isNumber(token) || token in OpenSymbols || token in CloseSymbols
    ensures r.Err? ==> r.error == InvalidExpression
    ensures (r.Ok? && r.value.Operation?) <==> token in OperatorSymbols
    ensures r.Ok? && r.value.Operation? ==> Symbol(r.value.op) == token
    ensures r == Ok(Operand(Number(token))) <==> isNumber(token)
    ensures r.Ok? && r.value.Operand? ==> r.value.value == Number(token)
    ensures r == Ok(OpenBracket) <==> token in OpenSymbols
    ensures r == Ok(CloseBracket) <==> token in CloseSymbols
  {
    match NewOperator(Some(token))
    case Ok(o) => Ok(Operation(o))
    case Err(_) =>
      match NewOperand(Some(token), isNumber)
      case Ok(f) => Ok(f)
      case Err(_) =>
        match NewOpenBracket(Some(token))
        case Ok(f) => Ok(f)
        case Err(_) =>
          match NewCloseBracket(Some(token))
          case Ok(f) => Ok(f)
          case Err(_) => Err(InvalidExpression)
  }

  /** Pushes the classification of every token from position Count(stack) on. */
  function TokenizeFrom(tokens: seq<string>, isNumber: NumberSyntax, stack: Stack<Fragment>): (r: Result<Stack<Fragment>>)
    requires Count(stack) <= |tokens| <= Size(stack)
    requires forall j :: 0 <= j < Count(stack) ==> Classify(tokens[j], isNumber) == Ok(stack.elements[j])
    ensures r.Ok? <==> forall j :: Count(stack) <= j < |tokens| ==> Classify(tokens[j], isNumber).Ok?
    ensures r.Err? ==> r.error == InvalidExpression
    ensures r.Ok? ==> Size(r.value) == Size(stack) && Count(r.value) == |tokens|
    ensures r.Ok? ==> forall j :: 0 <= j < |tokens| ==> Classify(tokens[j], isNumber) == Ok(r.value.elements[j])
    decreases |tokens| - Count(stack)
  {
    if Count(stack) == |tokens| then Ok(stack)
    else
      match Classify(tokens[Count(stack)], isNumber)
      case Err(e) => Err(e)
      case Ok(f) =>
        var pushed := Push(stack, f);
        assert pushed.success;
        TokenizeFrom(tokens, isNumber, pushed.stack)
  }

  /**
    convertExpressionToStack, over the whitespace-separated tokens of the
    input line: one fragment per token, the last token on top, capacity the
    token count; the first unclassifiable token makes it fail.
   */
  function Tokenize(tokens: seq<string>, isNumber: NumberSyntax): (r: Result<Stack<Fragment>>)
    ensures r.Ok? <==> forall j :: 0 <= j < |tokens| ==> Classify(tokens[j], isNumber).Ok?
    ensures r.Err? ==> r.error == InvalidExpression
    ensures r.Ok? ==> r.value.Valid() && Count(r.value) == |tokens|
    ensures r.Ok? && |tokens| > 0 ==> Size(r.value) == |tokens|
    ensures r.Ok? ==> forall j :: 0 <= j < |tokens| ==> Classify(tokens[j], isNumber) == Ok(r.value.elements[j])
  {
    TokenizeFrom(tokens, isNumber, New(|tokens|))
  }

  /**
    reverseStack: pops every element of `stack` onto a new stack of the same
    size. Returns the new stack and the state `stack` is left in.
   */
  method ReverseStack<T>(stack: Stack<T>) returns (reversed: Stack<T>, drained: Stack<T>)
    requires stack.Valid()
    ensures reversed.Valid() && Size(reversed) == Size(stack) && Count(reversed) == Count(stack)
    ensures forall i :: 0 <= i < Count(stack) ==> reversed.elements[i] == stack.elements[Count(stack) - 1 - i]
    ensures IsEmpty(drained) && Size(drained) == Size(stack)
    ensures reversed == Reversed(stack)
  {
    var newStack: Stack<T> := New(Size(stack));
    var rest := stack;
    while !IsEmpty(rest)
      invariant Size(rest) == Size(stack) && Size(newStack) == Size(stack)
      invariant Count(rest) <= Count(stack)
      invariant rest.elements == stack.elements[..Count(rest)]
      invariant newStack.elements == Reverse(stack.elements[Count(rest)..])
      decreases Count(rest)
    {
      var popped := Pop(rest).value;
      assert stack.elements[Count(rest) - 1..][1..] == stack.elements[Count(rest)..];
      newStack := Push(newStack, popped.element).stack;
      rest := popped.stack;
    }
    assert stack.elements[0..] == stack.elements;
    ReverseIndex(stack.elements);
    reversed := newStack;
    drained := rest;
  }

  /** Loop of evaluatePostfixExpression over the reversed input stack. */
  function PostfixLoop(input: Stack<Fragment>, operands: Stack<Value>): (r: Result<Value>)
    requires Count(input) + Count(operands) <= Size(operands)
    ensures r.Err? ==> r.error == InvalidExpression || r.error == EmptyStack
    decreases Count(input)
  {
    if IsEmpty(input) then
      var last :- Pop(operands);
      Ok(last.element)
    else
      var next := Pop(input).value;
      match next.element
      case Operand(v) =>
        var pushed := Push(operands, v);
        assert pushed.success;
        PostfixLoop(next.stack, pushed.stack)
      case Operation(o) =>
        var right :- Pop(operands);
        var left :- Pop(right.stack);
        var pushed := Push(left.stack, Apply(o, left.element, right.element));
        assert pushed.success;
        PostfixLoop(next.stack, pushed.stack)
      case _ => Err(InvalidExpression)
  }

  /** evaluatePostfixExpression: scans the fragments first to last. */
  function EvaluatePostfix(expression: Stack<Fragment>): (r: Result<Value>)
    requires expression.Valid()
    ensures r.Err? ==> r.error == InvalidExpression || r.error == EmptyStack
  {
    var input := Reversed(expression);
    PostfixLoop(input, New(Size(input)))
  }

  /** Loop of evaluatePrefixExpression: pops the input stack itself, so the
      fragments are scanned last to first. */
  function PrefixLoop(input: Stack<Fragment>, operands: Stack<Value>): (r: Result<Value>)
    requires Count(input) + Count(operands) <= Size(operands)
    ensures r.Err? ==> r.error == InvalidExpression || r.error == EmptyStack
    decreases Count(input)
  {
    if IsEmpty(input) then
      var last :- Pop(operands);
      Ok(last.element)
    else
      var next := Pop(input).value;
      match next.element
      case Operand(v) =>
        var pushed := Push(operands, v);
        assert pushed.success;
        PrefixLoop(next.stack, pushed.stack)
      case Operation(o) =>
        var left :- Pop(operands);
        var right :- Pop(left.stack);
        var pushed := Push(right.stack, Apply(o, left.element, right.element));
        assert pushed.success;
        PrefixLoop(next.stack, pushed.stack)
      case _ => Err(InvalidExpression)
  }

  /** evaluatePrefixExpression */
  function EvaluatePrefix(expression: Stack<Fragment>): (r: Result<Value>)
    requires expression.Valid()
    ensures r.Err? ==> r.error == InvalidExpression || r.error == EmptyStack
  {
    PrefixLoop(expression, New(Size(expression)))
  }

  /** State of the shunting-yard: the postfix output built so far and the
      pending operators and open brackets. */
  datatype Conversion = Conversion(output: Stack<Fragment>, operators: Stack<Fragment>)

  /** Only operators and open brackets are ever pushed on the operator stack. */
  predicate PendingOnly(s: Stack<Fragment>) {
    forall f :: f in s.elements ==> f.OpenBracket? || f.Operation?
  }

  /** Whether a pending operator `top` is output before `current` is pushed:
      it binds strictly tighter, or equally tight and is left-associative. */
  predicate Yields(top: Operator, current: Operator) {
    Precedence(top) < Precedence(current)
    || (Precedence(top) == Precedence(current) && IsLeftAssociative(top))
  }

  /** The stopping test of the operator case, written with compareTo as the
      source writes it, holds exactly when the top operator does not yield. */
  lemma StopTestMeansNotYielding(top: Operator, current: Operator)
    ensures (CompareTo(top, current) <= 0 && !(CompareTo(top, current) == 0 && IsLeftAssociative(top)))
        <==> !Yields(top, current)
  {
  }

  predicate Fits(c: Conversion) {
    && Size(c.output) == Size(c.operators)
    && Count(c.output) + Count(c.operators) <= Size(c.output)
  }

  /** One iteration of the three popping loops: the top pending fragment is
      popped and pushed on the output. */
  function MoveTop(c: Conversion): (r: Conversion)
    requires !IsEmpty(c.operators) && Fits(c)
    ensures Fits(r) && Size(r.output) == Size(c.output)
    ensures r.operators.elements + [c.operators.elements[Count(c.operators) - 1]] == c.operators.elements
    ensures r.output.elements == c.output.elements + [c.operators.elements[Count(c.operators) - 1]]
  {
    var popped := Pop(c.operators).value;
    var pushed := Push(c.output, popped.element);
    assert pushed.success;
    Conversion(pushed.stack, popped.stack)
  }

  /** MoveTop on a pending stack given as `below` with `top` above it. */
  lemma MoveTopOf(out: Stack<Fragment>, below: seq<Fragment>, top: Fragment)
    requires Fits(Conversion(out, Stack(below + [top], Size(out))))
    ensures MoveTop(Conversion(out, Stack(below + [top], Size(out))))
         == Conversion(Stack(out.elements + [top], Size(out)), Stack(below, Size(out)))
  {
    var m := MoveTop(Conversion(out, Stack(below + [top], Size(out))));
    assert m.operators.elements + [top] == below + [top];
    assert m.operators.elements == below;
  }

  /**
    The operator case of the shunting-yard: moves pending operators to the
    output while the top one yields to `current`; stops at an open bracket,
    at an operator that does not yield, or when empty. What it moves is
    stated by PopWhileYieldingShape, PopWhileYieldingMovesYielding and PopWhileYieldingStops.
   */
  function PopWhileYielding(c: Conversion, current: Operator): (r: Conversion)
    requires PendingOnly(c.operators) && Fits(c)
    ensures PendingOnly(r.operators) && Fits(r)
    ensures Size(r.output) == Size(c.output)
    ensures Count(r.output) + Count(r.operators) == Count(c.output) + Count(c.operators)
    ensures Count(r.operators) <= Count(c.operators)
    decreases Count(c.operators)
  {
    if IsEmpty(c.operators) || Peek(c.operators).value.OpenBracket? then c
    else
      var top := Peek(c.operators).value.op;
      var precedenceDiff := CompareTo(top, current);
      if precedenceDiff <= 0 && !(precedenceDiff == 0 && IsLeftAssociative(top)) then c
      else PopWhileYielding(MoveTop(c), current)
  }

  /** The operator case leaves a prefix of the pending stack and appends the
      rest of it to the output in pop order. */
  lemma {:induction false} PopWhileYieldingShape(c: Conversion, current: Operator)
    requires PendingOnly(c.operators) && Fits(c)
    ensures var r := PopWhileYielding(c, current);
      && r.operators.elements == c.operators.elements[..Count(r.operators)]
      && r.output.elements == c.output.elements + Reverse(c.operators.elements[Count(r.operators)..])
    decreases Count(c.operators)
  {
    var r := PopWhileYielding(c, current);
    var ops := c.operators.elements;
    if IsEmpty(c.operators) || Peek(c.operators).value.OpenBracket? {
      MovedNothing(c.output.elements, ops);
    } else {
      var top := Peek(c.operators).value.op;
      StopTestMeansNotYielding(top, current);
      if !Yields(top, current) {
        MovedNothing(c.output.elements, ops);
      } else {
        var moved := MoveTop(c);
        assert r == PopWhileYielding(moved, current);
        PopWhileYieldingShape(moved, current);
        assert ops[..|ops| - 1] == moved.operators.elements;
        MovedTopThenRest(c.output.elements, ops, Count(r.operators), r.operators.elements, r.output.elements);
      }
    }
  }

  /** Every operator the operator case moves yields to `current`. */
  lemma {:induction false} PopWhileYieldingMovesYielding(c: Conversion, current: Operator)
    requires PendingOnly(c.operators) && Fits(c)
    ensures var r := PopWhileYielding(c, current);
      forall i :: Count(r.operators) <= i < Count(c.operators) ==>
        c.operators.elements[i].Operation? && Yields(c.operators.elements[i].op, current)
    decreases Count(c.operators)
  {
    if !(IsEmpty(c.operators) || Peek(c.operators).value.OpenBracket?) {
      var top := Peek(c.operators).value.op;
      if Yields(top, current) {
        StopTestMeansNotYielding(top, current);
        PopWhileYieldingMovesYielding(MoveTop(c), current);
      }
    }
  }

  /** The operator case stops only at an empty stack, an open bracket, or
      an operator that does not yield to `current`. */
  lemma {:induction false} PopWhileYieldingStops(c: Conversion, current: Operator)
    requires PendingOnly(c.operators) && Fits(c)
    ensures var r := PopWhileYielding(c, current);
      IsEmpty(r.operators) || Peek(r.operators).value.OpenBracket?
      || !Yields(Peek(r.operators).value.op, current)
    decreases Count(c.operators)
  {
    if !(IsEmpty(c.operators) || Peek(c.operators).value.OpenBracket?) {
      var top := Peek(c.operators).value.op;
      StopTestMeansNotYielding(top, current);
      if Yields(top, current) {
        PopWhileYieldingStops(MoveTop(c), current);
      }
    }
  }

  /**
    The close-bracket case of the shunting-yard: moves pending operators to
    the output, in pop order, until an open bracket is on top or the stack
    is empty. What it moves is stated by PopUntilOpenShape.
   */
  function PopUntilOpen(c: Conversion): (r: Conversion)
    requires PendingOnly(c.operators) && Fits(c)
    ensures PendingOnly(r.operators) && Fits(r)
    ensures Size(r.output) == Size(c.output)
    ensures Count(r.output) + Count(r.operators) == Count(c.output) + Count(c.operators)
    ensures Count(r.operators) <= Count(c.operators)
    ensures IsEmpty(r.operators) || Peek(r.operators).value.OpenBracket?
    decreases Count(c.operators)
  {
    if IsEmpty(c.operators) || Peek(c.operators).value.OpenBracket? then c
    else PopUntilOpen(MoveTop(c))
  }

  /** The close-bracket case leaves the pending stack up to its topmost open
      bracket (or nothing, if there is none) and appends everything above
      that bracket to the output in pop order. */
  lemma {:induction false} PopUntilOpenShape(c: Conversion)
    requires PendingOnly(c.operators) && Fits(c)
    ensures var r := PopUntilOpen(c);
      && r.operators.elements == c.operators.elements[..Count(r.operators)]
      && r.output.elements == c.output.elements + Reverse(c.operators.elements[Count(r.operators)..])
      && OpenBracket !in c.operators.elements[Count(r.operators)..]
    decreases Count(c.operators)
  {
    var r := PopUntilOpen(c);
    var ops := c.operators.elements;
    if IsEmpty(c.operators) || Peek(c.operators).value.OpenBracket? {
      MovedNothing(c.output.elements, ops);
    } else {
      var moved := MoveTop(c);
      assert r == PopUntilOpen(moved);
      PopUntilOpenShape(moved);
      assert ops[..|ops| - 1] == moved.operators.elements;
      MovedTopThenRest(c.output.elements, ops, Count(r.operators), r.operators.elements, r.output.elements);
    }
  }

  /**
    The final loop of the shunting-yard: appends the pending operators to
    the output in pop order; a bracket left among them is an invalid
    expression.
   */
  function Drain(c: Conversion): (r: Result<Stack<Fragment>>)
    requires Fits(c)
    ensures r.Ok? <==> OpenBracket !in c.operators.elements && CloseBracket !in c.operators.elements
    ensures r.Err? ==> r.error == InvalidExpression
    ensures r.Ok? ==> Size(r.value) == Size(c.output)
    ensures r.Ok? ==> r.value.elements == c.output.elements + Reverse(c.operators.elements)
    decreases Count(c.operators)
  {
    if IsEmpty(c.operators) then Ok(c.output)
    else
      var popped := Pop(c.operators).value;
      if popped.element.OpenBracket? || popped.element.CloseBracket? then Err(InvalidExpression)
      else
        var pushed := Push(c.output, popped.element);
        assert pushed.success;
        var r := Drain(Conversion(pushed.stack, popped.stack));
        AppendTopThenRest(c.output.elements, c.operators.elements, 0);
        r
  }

  /** The scanning loop of the shunting-yard, followed by the final drain. */
  function ShuntingYard(input: Stack<Fragment>, c: Conversion): (r: Result<Stack<Fragment>>)
    requires PendingOnly(c.operators) && Fits(c)
    requires Count(input) + Count(c.output) + Count(c.operators) <= Size(c.output)
    ensures r.Err? ==> r.error == InvalidExpression
    ensures r.Ok? ==> Size(r.value) == Size(c.output) && Count(r.value) <= Size(c.output)
    decreases Count(input)
  {
    if IsEmpty(input) then Drain(c)
    else
      var next := Pop(input).value;
      match next.element
      case Operand(_) =>
        var pushed := Push(c.output, next.element);
        assert pushed.success;
        ShuntingYard(next.stack, Conversion(pushed.stack, c.operators))
      case OpenBracket =>
        var pushed := Push(c.operators, next.element);
        assert pushed.success;
        ShuntingYard(next.stack, Conversion(c.output, pushed.stack))
      case CloseBracket =>
        var moved := PopUntilOpen(c);
        if IsEmpty(moved.operators) then Err(InvalidExpression)
        else ShuntingYard(next.stack, Conversion(moved.output, Pop(moved.operators).value.stack))
      case Operation(o) =>
        var moved := PopWhileYielding(c, o);
        var pushed := Push(moved.operators, next.element);
        assert pushed.success;
        ShuntingYard(next.stack, Conversion(moved.output, pushed.stack))
  }

  /** The conversion half of evaluateInfixExpression. */
  function InfixToPostfix(expression: Stack<Fragment>): (r: Result<Stack<Fragment>>)
    requires expression.Valid()
    ensures r.Err? ==> r.error == InvalidExpression
    ensures r.Ok? ==> r.value.Valid() && Size(r.value) == Size(expression)
  {
    var input := Reversed(expression);
    ShuntingYard(input, Conversion(New(Size(input)), New(Size(input))))
  }

  /** evaluateInfixExpression: shunting-yard, then postfix evaluation. */
  function EvaluateInfix(expression: Stack<Fragment>): (r: Result<Value>)
    requires expression.Valid()
    ensures r.Err? ==> r.error == InvalidExpression || r.error == EmptyStack
  {
    var postfix :- InfixToPostfix(expression);
    EvaluatePostfix(postfix)
  }
}
