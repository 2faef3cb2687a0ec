/** What evaluatePrefixExpression computes. */
module PrefixProofs {
  import opened Results
  import opened BoundedStack
  import opened Operators
  import opened Fragments
  import opened ExpressionEvaluator
  import opened Notation

  /** Scanning the prefix form of `v` from its end pushes exactly `v`. */
  lemma {:induction false} PrefixLoopConsumes(v: Value, before: seq<Fragment>, cap: nat, operands: Stack<Value>)
    requires |before| + |PrefixOf(v)| + Count(operands) <= Size(operands)
    ensures PrefixLoop(Stack(before + PrefixOf(v), cap), operands)
         == PrefixLoop(Stack(before, cap), Push(operands, v).stack)
  {
    match v
    case Number(_) =>
      var input := Stack(before + PrefixOf(v), cap);
      assert input.elements[..|before|] == before;
    case Node(o, l, r) =>
      var pl, pr := PrefixOf(l), PrefixOf(r);
      var b1 := before + [Operation(o)] + pl;
      assert before + PrefixOf(v) == b1 + pr;
      PrefixLoopConsumes(r, b1, cap, operands);
      var withRight := Push(operands, r).stack;
      var b2 := before + [Operation(o)];
      assert b1 == b2 + pl;
      PrefixLoopConsumes(l, b2, cap, withRight);
      var withBoth := Push(withRight, l).stack;
      var input := Stack(b2, cap);
      assert input.elements[..|before|] == before;
      assert Pop(withBoth).value == Popped(withRight, l);
      assert Pop(withRight).value == Popped(operands, r);
  }

  /** Prefix evaluation inverts the prefix printer: the first pop is the
      left operand, the second the right. */
  lemma PrefixRoundTrip(v: Value, expression: Stack<Fragment>)
    requires expression.Valid() && expression.elements == PrefixOf(v)
    ensures EvaluatePrefix(expression) == Ok(v)
  {
    var cap := Size(expression);
    assert [] + PrefixOf(v) == PrefixOf(v);
    PrefixLoopConsumes(v, [], cap, New(cap));
  }

  /** Operands left below the result are ignored: the prefix form of `a`
      followed by that of `b` evaluates to `a`. */
  lemma PrefixIgnoresExtraOperands(a: Value, b: Value, expression: Stack<Fragment>)
    requires expression.Valid() && expression.elements == PrefixOf(a) + PrefixOf(b)
    ensures EvaluatePrefix(expression) == Ok(a)
  {
    var cap := Size(expression);
    PrefixLoopConsumes(b, PrefixOf(a), cap, New(cap));
    assert [] + PrefixOf(a) == PrefixOf(a);
    PrefixLoopConsumes(a, [], cap, Push(New<Value>(cap), b).stack);
  }

  /** The outcome of a prefix scan (last fragment first), read off operand
      counts alone. */
  function PrefixVerdict(xs: seq<Fragment>, depth: nat): Option<Error> {
    if xs == [] then (if depth == 0 then Some(EmptyStack) else None)
    else match xs[|xs| - 1]
      case Operand(_) => PrefixVerdict(xs[..|xs| - 1], depth + 1)
      case Operation(_) => if depth < 2 then Some(EmptyStack) else PrefixVerdict(xs[..|xs| - 1], depth - 1)
      case _ => Some(InvalidExpression)
  }

  lemma {:induction false} PrefixLoopVerdict(xs: seq<Fragment>, cap: nat, operands: Stack<Value>)
    requires |xs| + Count(operands) <= Size(operands)
    ensures var r := PrefixLoop(Stack(xs, cap), operands);
      && (r.Err? <==> PrefixVerdict(xs, Count(operands)).Some?)
      && (r.Err? ==> r.error == PrefixVerdict(xs, Count(operands)).value)
    decreases |xs|
  {
    if xs != [] {
      var rest := xs[..|xs| - 1];
      match xs[|xs| - 1]
      case Operand(v) =>
        PrefixLoopVerdict(rest, cap, Push(operands, v).stack);
      case Operation(o) =>
        if Count(operands) >= 2 {
          var left := Pop(operands).value;
          var right := Pop(left.stack).value;
          PrefixLoopVerdict(rest, cap, Push(right.stack, Apply(o, left.element, right.element)).stack);
        }
      case _ =>
    }
  }

  /** Prefix evaluation fails exactly when the operand counts say so, with
      the error they predict. */
  lemma PrefixErrors(expression: Stack<Fragment>)
    requires expression.Valid()
    ensures EvaluatePrefix(expression).Err? <==> PrefixVerdict(expression.elements, 0).Some?
    ensures EvaluatePrefix(expression).Err? ==>
      EvaluatePrefix(expression).error == PrefixVerdict(expression.elements, 0).value
  {
    PrefixLoopVerdict(expression.elements, Size(expression), New(Size(expression)));
  }
}
