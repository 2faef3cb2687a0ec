/** What evaluatePostfixExpression computes. */
module PostfixProofs {
  import opened Results
  import opened BoundedStack
  import opened Operators
  import opened Fragments
  import opened ExpressionEvaluator
  import opened Notation

  /** One iteration of the scanning loop on an operand: it is pushed. */
  lemma PostfixStepOperand(xs: seq<Fragment>, v: Value, cap: nat, operands: Stack<Value>)
    requires |xs| + 1 + Count(operands) <= Size(operands)
    ensures PostfixLoop(Stack(xs + [Operand(v)], cap), operands)
         == PostfixLoop(Stack(xs, cap), Push(operands, v).stack)
  {
    assert (xs + [Operand(v)])[..|xs|] == xs;
  }

  /** One iteration of the scanning loop on an operator with `l` and `r` on
      top: the two are replaced by the node joining them, `l` on the left. */
  lemma PostfixStepOperator(xs: seq<Fragment>, o: Operator, l: Value, r: Value, cap: nat, operands: Stack<Value>)
    requires |xs| + 3 + Count(operands) <= Size(operands)
    ensures PostfixLoop(Stack(xs + [Operation(o)], cap), Push(Push(operands, l).stack, r).stack)
         == PostfixLoop(Stack(xs, cap), Push(operands, Node(o, l, r)).stack)
  {
    var withLeft := Push(operands, l).stack;
    PushThenPop(operands, l);
    PushThenPop(withLeft, r);
    assert (xs + [Operation(o)])[..|xs|] == xs;
  }

  /** The reversed postfix form of a node, as the scanning loop meets it
      from the top: the left operand, the right operand, the operator. */
  lemma ReversedPostfixNode(o: Operator, l: Value, r: Value, after: seq<Fragment>)
    ensures after + Reverse(PostfixOf(Node(o, l, r)))
         == after + [Operation(o)] + Reverse(PostfixOf(r)) + Reverse(PostfixOf(l))
  {
    ReverseAppend(PostfixOf(l) + PostfixOf(r), [Operation(o)]);
    ReverseAppend(PostfixOf(l), PostfixOf(r));
  }

  /** Scanning the postfix form of `v` pushes exactly `v` on the operand stack. */
  lemma {:induction false} PostfixLoopConsumes(v: Value, after: seq<Fragment>, cap: nat, operands: Stack<Value>)
    requires |after| + |PostfixOf(v)| + Count(operands) <= Size(operands)
    ensures PostfixLoop(Stack(after + Reverse(PostfixOf(v)), cap), operands)
         == PostfixLoop(Stack(after, cap), Push(operands, v).stack)
  {
    match v
    case Number(_) =>
      PostfixStepOperand(after, v, cap, operands);
    case Node(o, l, r) =>
      var a2 := after + [Operation(o)];
      ReversedPostfixNode(o, l, r, after);
      PostfixLoopConsumes(l, a2 + Reverse(PostfixOf(r)), cap, operands);
      PostfixLoopConsumes(r, a2, cap, Push(operands, l).stack);
      PostfixStepOperator(after, o, l, r, cap, operands);
  }

  /** Postfix evaluation inverts the postfix printer. */
  lemma PostfixRoundTrip(v: Value, expression: Stack<Fragment>)
    requires expression.Valid() && expression.elements == PostfixOf(v)
    ensures EvaluatePostfix(expression) == Ok(v)
  {
    var cap := Size(expression);
    assert [] + Reverse(PostfixOf(v)) == Reverse(PostfixOf(v));
    PostfixLoopConsumes(v, [], cap, New(cap));
  }

  /**
    Operands left below the result are ignored: evaluating the postfix form
    of `a` followed by that of `b` gives `b`.
   */
  lemma PostfixIgnoresExtraOperands(a: Value, b: Value, expression: Stack<Fragment>)
    requires expression.Valid() && expression.elements == PostfixOf(a) + PostfixOf(b)
    ensures EvaluatePostfix(expression) == Ok(b)
  {
    var cap := Size(expression);
    ReverseAppend(PostfixOf(a), PostfixOf(b));
    PostfixLoopConsumes(a, Reverse(PostfixOf(b)), cap, New(cap));
    assert [] + Reverse(PostfixOf(b)) == Reverse(PostfixOf(b));
    PostfixLoopConsumes(b, [], cap, Push(New<Value>(cap), a).stack);
  }

  /**
    The outcome of a postfix scan, read off operand counts alone: a
    bracket is an invalid expression; an operator with fewer than two
    operands, or an empty final stack, is an empty-stack error.
   */
  function PostfixVerdict(xs: seq<Fragment>, depth: nat): Option<Error> {
    if xs == [] then (if depth == 0 then Some(EmptyStack) else None)
    else match xs[0]
      case Operand(_) => PostfixVerdict(xs[1..], depth + 1)
      case Operation(_) => if depth < 2 then Some(EmptyStack) else PostfixVerdict(xs[1..], depth - 1)
      case _ => Some(InvalidExpression)
  }

  /** The operand stack after an operator: its two top values replaced by
      the node joining them. */
  function Reduced(o: Operator, operands: Stack<Value>): (r: Stack<Value>)
    requires 2 <= Count(operands) <= Size(operands)
    ensures Count(r) == Count(operands) - 1 && Size(r) == Size(operands)
  {
    var right := Pop(operands).value;
    var left := Pop(right.stack).value;
    Push(left.stack, Apply(o, left.element, right.element)).stack
  }

  /** One iteration of the scanning loop over a reversed fragment sequence. */
  lemma PostfixLoopStep(xs: seq<Fragment>, cap: nat, operands: Stack<Value>)
    requires xs != [] && |xs| + Count(operands) <= Size(operands)
    ensures PostfixLoop(Stack(Reverse(xs), cap), operands)
      == if xs[0].Operand? then PostfixLoop(Stack(Reverse(xs[1..]), cap), Push(operands, xs[0].value).stack)
         else if !xs[0].Operation? then Err(InvalidExpression)
         else if Count(operands) < 2 then Err(EmptyStack)
         else PostfixLoop(Stack(Reverse(xs[1..]), cap), Reduced(xs[0].op, operands))
  {
    PopReversed(xs, cap);
  }

  lemma {:induction false} PostfixLoopVerdict(xs: seq<Fragment>, cap: nat, operands: Stack<Value>)
    requires |xs| + Count(operands) <= Size(operands)
    ensures var r := PostfixLoop(Stack(Reverse(xs), cap), operands);
      && (r.Err? <==> PostfixVerdict(xs, Count(operands)).Some?)
      && (r.Err? ==> r.error == PostfixVerdict(xs, Count(operands)).value)
    decreases |xs|
  {
    if xs != [] {
      PostfixLoopStep(xs, cap, operands);
      match xs[0]
      case Operand(v) =>
        PostfixLoopVerdict(xs[1..], cap, Push(operands, v).stack);
      case Operation(o) =>
        if Count(operands) >= 2 {
          PostfixLoopVerdict(xs[1..], cap, Reduced(o, operands));
        }
      case _ =>
    }
  }

  /**
    Postfix evaluation fails exactly when the operand counts say so, and
    with the error they predict: brackets give InvalidExpression, missing
    operands give the stack's empty-stack error.
   */
  lemma PostfixErrors(expression: Stack<Fragment>)
    requires expression.Valid()
    ensures EvaluatePostfix(expression).Err? <==> PostfixVerdict(expression.elements, 0).Some?
    ensures EvaluatePostfix(expression).Err? ==>
      EvaluatePostfix(expression).error == PostfixVerdict(expression.elements, 0).value
  {
    PostfixLoopVerdict(expression.elements, Size(expression), New(Size(expression)));
  }
}
