/**
  What evaluateInfixExpression computes on correctly bracketed input: the
  operator loop applies precedence and associativity, the brackets
  override them, and together they rebuild the tree the input was written
  for, however many redundant brackets it carries.
 */
module PrecedenceProofs {
  import opened Results
  import opened BoundedStack
  import opened Operators
  import opened Fragments
  import opened ExpressionEvaluator
  import opened Notation
  import opened InfixProofs
  import PostfixProofs

  /** The printer's rule for a left operand is the conversion's yield test:
      an unbracketed left operand is output before its operator arrives. */
  lemma LeftBracketsIffNotYielding(o: Operator, l: Value)
    requires l.Node?
    ensures LeftNeedsBrackets(o, l) <==> !Yields(l.op, o)
  {
  }

  /** The printer's rule for a right operand: an unbracketed right operand
      keeps its operator pending above `o`. */
  lemma RightBracketsIffYielding(o: Operator, r: Value)
    requires r.Node?
    ensures RightNeedsBrackets(o, r) <==> Yields(o, r.op)
  {
  }

  /** The minimal printer writes exactly enough brackets. */
  lemma {:induction false} MinimalIsWellGrouped(v: Value)
    ensures WellGrouped(Minimal(v))
  {
    match v
    case Number(_) =>
    case Node(o, l, r) =>
      MinimalIsWellGrouped(l);
      MinimalIsWellGrouped(r);
      if l.Node? {
        LeftBracketsIffNotYielding(o, l);
      }
      if r.Node? {
        RightBracketsIffYielding(o, r);
      }
  }

  /** Bracketing every application is always enough. */
  lemma {:induction false} FullIsWellGrouped(v: Value)
    ensures WellGrouped(Full(v))
  {
    match v
    case Number(_) =>
    case Node(o, l, r) =>
      FullIsWellGrouped(l);
      FullIsWellGrouped(r);
  }

  /** What the scan of Spelling(w) has output once its last fragment is
      read. */
  function Emitted(w: Written): (r: seq<Fragment>)
    ensures |r| + |Pending(w)| == |PostfixOf(Meaning(w))|
  {
    match w
    case Atom(s) => [Operand(Number(s))]
    case Binary(o, l, r) => PostfixOf(Meaning(l)) + Emitted(r)
    case Group(inner) => PostfixOf(Meaning(inner))
  }

  /** The operators of `w` still pending at that point, bottom first: the
      unbracketed right spine of `w`. */
  function Pending(w: Written): (p: seq<Fragment>)
    ensures forall f :: f in p ==> f.Operation?
  {
    match w
    case Atom(_) => []
    case Binary(o, l, r) => [Operation(o)] + Pending(r)
    case Group(_) => []
  }

  /** Draining what is pending completes the postfix form. */
  lemma {:induction false} EmittedThenPending(w: Written)
    ensures Emitted(w) + Reverse(Pending(w)) == PostfixOf(Meaning(w))
  {
    match w
    case Atom(_) =>
    case Group(_) =>
    case Binary(o, l, r) =>
      var p := Operation(o);
      EmittedThenPending(r);
      ReverseOne(p);
      ReverseAppend([p], Pending(r));
      AppendTwice(PostfixOf(Meaning(l)), Emitted(r), Reverse(Pending(r)) + [p]);
      AppendTwice(Emitted(r), Reverse(Pending(r)), [p]);
  }

  /** Whether the operator loop, run for `o`, stops at once on the pending
      stack `ops`. */
  predicate Blocks(ops: seq<Fragment>, o: Operator) {
    ops == [] || ops[|ops| - 1].OpenBracket? || (ops[|ops| - 1].Operation? && !Yields(ops[|ops| - 1].op, o))
  }

  /** Whether the operator of `w` outside brackets, if any, stops the loop
      at `ops`. */
  predicate Guards(ops: seq<Fragment>, w: Written) {
    w.Binary? ==> Blocks(ops, w.op)
  }

  /** What stops the loop for an operator stops it for any operator that
      yields to it. */
  lemma NotYieldingThrough(t: Operator, o: Operator, q: Operator)
    requires !Yields(t, o) && Yields(q, o)
    ensures !Yields(t, q)
  {
  }

  /** An operator `q` that yields to `o` carries along every operator
      that does not stop it. */
  lemma YieldingThrough(q: Operator, r: Operator, o: Operator)
    requires Yields(q, o) && !Yields(q, r)
    ensures Yields(r, o)
  {
  }

  /** Every operator left pending by a well-grouped operand whose own
      operator yields to `o` yields to `o` too. */
  lemma {:induction false} PendingYields(w: Written, o: Operator)
    requires WellGrouped(w) && (w.Binary? ==> Yields(w.op, o))
    ensures forall f :: f in Pending(w) ==> f.Operation? && Yields(f.op, o)
  {
    match w
    case Atom(_) =>
    case Group(_) =>
    case Binary(q, l, r) =>
      if r.Binary? {
        YieldingThrough(q, r.op, o);
      }
      PendingYields(r, o);
  }

  lemma BlocksBelowLeft(ops: seq<Fragment>, o: Operator, l: Written)
    requires Blocks(ops, o) && l.Binary? && Yields(l.op, o)
    ensures Blocks(ops, l.op)
  {
    if ops != [] && ops[|ops| - 1].Operation? && !Yields(ops[|ops| - 1].op, o) {
      NotYieldingThrough(ops[|ops| - 1].op, o, l.op);
    }
  }

  lemma BlocksAboveOperator(ops: seq<Fragment>, o: Operator, r: Written)
    requires r.Binary? && !Yields(o, r.op)
    ensures Blocks(ops + [Operation(o)], r.op)
  {
    assert (ops + [Operation(o)])[|ops|] == Operation(o);
  }

  /** The operator loop on a stack that stops it moves nothing. */
  lemma PopWhileYieldingBlocked(out: seq<Fragment>, ops: seq<Fragment>, o: Operator, n: nat)
    requires PendingOnly(Stack(ops, n)) && Blocks(ops, o) && |out| + |ops| <= n
    ensures PopWhileYielding(Conversion(Stack(out, n), Stack(ops, n)), o) == Conversion(Stack(out, n), Stack(ops, n))
  {
    var c := Conversion(Stack(out, n), Stack(ops, n));
    if ops != [] && !ops[|ops| - 1].OpenBracket? {
      assert Peek(c.operators).value == ops[|ops| - 1];
      StopTestMeansNotYielding(ops[|ops| - 1].op, o);
    }
  }

  /** With operators that all yield to `o` above a stack that stops the
      loop, the operator loop moves exactly those operators, in pop order. */
  lemma {:induction false} PopWhileYieldingPending(out: seq<Fragment>, ops: seq<Fragment>, ys: seq<Fragment>, o: Operator, n: nat)
    requires PendingOnly(Stack(ops + ys, n)) && Blocks(ops, o)
    requires forall f :: f in ys ==> f.Operation? && Yields(f.op, o)
    requires |out| + |ops| + |ys| <= n
    ensures PopWhileYielding(Conversion(Stack(out, n), Stack(ops + ys, n)), o)
         == Conversion(Stack(out + Reverse(ys), n), Stack(ops, n))
    decreases |ys|
  {
    if ys == [] {
      assert ops + ys == ops;
      assert PendingOnly(Stack(ops, n));
      PopWhileYieldingBlocked(out, ops, o, n);
    } else {
      var below, top := ys[..|ys| - 1], ys[|ys| - 1];
      var c := Conversion(Stack(out, n), Stack(ops + ys, n));
      assert top in ys;
      assert ops + ys == (ops + below) + [top];
      assert Peek(c.operators).value == top;
      StopTestMeansNotYielding(top.op, o);
      MoveTopOf(Stack(out, n), ops + below, top);
      assert PendingOnly(Stack(ops + below, n)) by {
        assert forall f :: f in ops + below ==> f in ops + ys;
      }
      assert forall f :: f in below ==> f in ys;
      PopWhileYieldingPending(out + [top], ops, below, o, n);
      ReverseLast(ys);
      AppendTwice(out, [top], Reverse(below));
    }
  }

  lemma AppendTwice<T>(a: seq<T>, b: seq<T>, c: seq<T>)
    ensures a + b + c == a + (b + c)
  {
  }

  /** With operators above "(", the close-bracket loop moves exactly those
      operators, in pop order. */
  lemma {:induction false} PopUntilOpenPending(out: seq<Fragment>, ops: seq<Fragment>, ys: seq<Fragment>, n: nat)
    requires PendingOnly(Stack(ops + [OpenBracket] + ys, n))
    requires forall f :: f in ys ==> f.Operation?
    requires |out| + |ops| + 1 + |ys| <= n
    ensures PopUntilOpen(Conversion(Stack(out, n), Stack(ops + [OpenBracket] + ys, n)))
         == Conversion(Stack(out + Reverse(ys), n), Stack(ops + [OpenBracket], n))
    decreases |ys|
  {
    var open := ops + [OpenBracket];
    var c := Conversion(Stack(out, n), Stack(open + ys, n));
    if ys == [] {
      assert open + ys == open;
      assert Peek(c.operators).value == OpenBracket;
    } else {
      var below, top := ys[..|ys| - 1], ys[|ys| - 1];
      assert top in ys;
      assert open + ys == (open + below) + [top];
      assert Peek(c.operators).value == top;
      MoveTopOf(Stack(out, n), open + below, top);
      assert PendingOnly(Stack(open + below, n)) by {
        assert forall f :: f in open + below ==> f in open + ys;
      }
      assert forall f :: f in below ==> f in ys;
      PopUntilOpenPending(out + [top], ops, below, n);
      ReverseLast(ys);
      AppendTwice(out, [top], Reverse(below));
    }
  }

  /** Scanning Spelling(w) outputs Emitted(w) and leaves Pending(w) on top
      of the pending stack, provided the operator of `w` outside brackets
      would pop nothing already pending. */
  lemma {:induction false} Consume(w: Written, after: seq<Fragment>, cap: nat, c: Conversion)
    requires WellGrouped(w)
    requires PendingOnly(c.operators) && Fits(c) && Guards(c.operators.elements, w)
    requires |after| + |Spelling(w)| + Count(c.output) + Count(c.operators) <= Size(c.output)
    ensures var n := Size(c.output);
      ShuntingYard(Stack(after + Reverse(Spelling(w)), cap), c)
      == ShuntingYard(Stack(after, cap), Conversion(Stack(c.output.elements + Emitted(w), n), Stack(c.operators.elements + Pending(w), n)))
    decreases w, 2
  {
    match w
    case Atom(s) =>
      ReverseOne(Operand(Number(s)));
      StepOperand(after, Operand(Number(s)), cap, c);
      AppendNothing(c.operators.elements);
    case Group(inner) =>
      ConsumeGroup(w, after, cap, c);
      AppendNothing(c.operators.elements);
    case Binary(o, l, r) =>
      ConsumeApply(w, after, cap, c);
  }

  lemma AppendNothing<T>(xs: seq<T>)
    ensures xs + [] == xs
  {
  }

  lemma {:induction false} ConsumeApply(w: Written, after: seq<Fragment>, cap: nat, c: Conversion)
    requires w.Binary? && WellGrouped(w)
    requires PendingOnly(c.operators) && Fits(c) && Guards(c.operators.elements, w)
    requires |after| + |Spelling(w)| + Count(c.output) + Count(c.operators) <= Size(c.output)
    ensures var n := Size(c.output);
      ShuntingYard(Stack(after + Reverse(Spelling(w)), cap), c)
      == ShuntingYard(Stack(after, cap), Conversion(Stack(c.output.elements + Emitted(w), n), Stack(c.operators.elements + Pending(w), n)))
    decreases w, 1
  {
    var o, l, r := w.op, w.left, w.right;
    var n := Size(c.output);
    var sl, sr := Spelling(l), Spelling(r);
    ReverseAround(sl, Operation(o), sr);
    AppendTwice(after, Reverse(sr) + [Operation(o)], Reverse(sl));
    AppendTwice(after, Reverse(sr), [Operation(o)]);
    ConsumeLeft(w, after + Reverse(sr), cap, c);
    ConsumeRight(w, after, cap, c.output.elements + PostfixOf(Meaning(l)), c.operators.elements, n);
    AppendTwice(c.output.elements, PostfixOf(Meaning(l)), Emitted(r));
    AppendTwice(c.operators.elements, [Operation(o)], Pending(r));
  }

  /** The left operand, then its operator: whatever the left operand left
      pending is output, and the operator is pushed. */
  lemma {:induction false} ConsumeLeft(w: Written, a2: seq<Fragment>, cap: nat, c: Conversion)
    requires w.Binary? && WellGrouped(w)
    requires PendingOnly(c.operators) && Fits(c) && Guards(c.operators.elements, w)
    requires |a2| + 1 + |Spelling(w.left)| + Count(c.output) + Count(c.operators) <= Size(c.output)
    ensures var n := Size(c.output);
      ShuntingYard(Stack(a2 + [Operation(w.op)] + Reverse(Spelling(w.left)), cap), c)
      == ShuntingYard(Stack(a2, cap), Conversion(Stack(c.output.elements + PostfixOf(Meaning(w.left)), n), Stack(c.operators.elements + [Operation(w.op)], n)))
    decreases w, 0
  {
    var o, l := w.op, w.left;
    var n := Size(c.output);
    var out, ops := c.output.elements, c.operators.elements;
    if l.Binary? {
      BlocksBelowLeft(ops, o, l);
    }
    Consume(l, a2 + [Operation(o)], cap, c);
    var c1 := Conversion(Stack(out + Emitted(l), n), Stack(ops + Pending(l), n));
    StepOperator(a2, o, cap, c1);
    PendingYields(l, o);
    PopWhileYieldingPending(out + Emitted(l), ops, Pending(l), o, n);
    EmittedThenPending(l);
    AppendTwice(out, Emitted(l), Reverse(Pending(l)));
  }

  /** The right operand, scanned with its operator pending. */
  lemma {:induction false} ConsumeRight(w: Written, after: seq<Fragment>, cap: nat, out: seq<Fragment>, ops: seq<Fragment>, n: nat)
    requires w.Binary? && WellGrouped(w)
    requires PendingOnly(Stack(ops, n))
    requires |after| + |Spelling(w.right)| + |out| + |ops| + 1 <= n
    ensures ShuntingYard(Stack(after + Reverse(Spelling(w.right)), cap), Conversion(Stack(out, n), Stack(ops + [Operation(w.op)], n)))
         == ShuntingYard(Stack(after, cap), Conversion(Stack(out + Emitted(w.right), n), Stack(ops + [Operation(w.op)] + Pending(w.right), n)))
    decreases w, 0
  {
    var o, r := w.op, w.right;
    if r.Binary? {
      BlocksAboveOperator(ops, o, r);
    }
    Consume(r, after, cap, Conversion(Stack(out, n), Stack(ops + [Operation(o)], n)));
  }

  /** A bracket group is consumed whole: "(" is pushed, the inside is
      scanned, and ")" outputs what it left pending and discards "(". */
  lemma {:induction false} ConsumeGroup(w: Written, after: seq<Fragment>, cap: nat, c: Conversion)
    requires w.Group? && WellGrouped(w)
    requires PendingOnly(c.operators) && Fits(c)
    requires |after| + |Spelling(w)| + Count(c.output) + Count(c.operators) <= Size(c.output)
    ensures var n := Size(c.output);
      ShuntingYard(Stack(after + Reverse(Spelling(w)), cap), c)
      == ShuntingYard(Stack(after, cap), Conversion(Stack(c.output.elements + PostfixOf(Meaning(w)), n), c.operators))
    decreases w, 1
  {
    var n := Size(c.output);
    var out, ops := c.output.elements, c.operators.elements;
    var inner := w.inner;
    OpenThenScan(w, after, cap, c);
    CloseOverPending(after, cap, out + Emitted(inner), ops, Pending(inner), n);
    EmittedThenPending(inner);
    AppendTwice(out, Emitted(inner), Reverse(Pending(inner)));
  }

  /** "(" and the inside of the group: its pending operators sit on top of
      "(". */
  lemma {:induction false} OpenThenScan(w: Written, pre: seq<Fragment>, cap: nat, c: Conversion)
    requires w.Group? && WellGrouped(w)
    requires PendingOnly(c.operators) && Fits(c)
    requires |pre| + |Spelling(w)| + Count(c.output) + Count(c.operators) <= Size(c.output)
    ensures var n := Size(c.output);
      ShuntingYard(Stack(pre + Reverse(Spelling(w)), cap), c)
      == ShuntingYard(Stack(pre + [CloseBracket], cap), Conversion(Stack(c.output.elements + Emitted(w.inner), n), Stack(c.operators.elements + [OpenBracket] + Pending(w.inner), n)))
    decreases w, 0
  {
    var n := Size(c.output);
    var ops := c.operators.elements;
    var xs := Spelling(w.inner);
    var closed := pre + [CloseBracket];
    ReverseWrapped(xs);
    Shift(pre, [CloseBracket], Reverse(xs), [OpenBracket]);
    StepOpen(closed + Reverse(xs), cap, c);
    var c1 := Conversion(c.output, Stack(ops + [OpenBracket], n));
    assert (ops + [OpenBracket])[|ops|] == OpenBracket;
    Consume(w.inner, closed, cap, c1);
  }

  lemma Shift<T>(a: seq<T>, b: seq<T>, c: seq<T>, d: seq<T>)
    ensures a + (b + c + d) == (a + b) + c + d
  {
  }

  /** ")" outputs the operators above the nearest "(" and discards it. */
  lemma CloseOverPending(after: seq<Fragment>, cap: nat, out: seq<Fragment>, ops: seq<Fragment>, ys: seq<Fragment>, n: nat)
    requires PendingOnly(Stack(ops + [OpenBracket] + ys, n))
    requires forall f :: f in ys ==> f.Operation?
    requires |after| + 1 + |out| + |ops| + 1 + |ys| <= n
    ensures ShuntingYard(Stack(after + [CloseBracket], cap), Conversion(Stack(out, n), Stack(ops + [OpenBracket] + ys, n)))
         == ShuntingYard(Stack(after, cap), Conversion(Stack(out + Reverse(ys), n), Stack(ops, n)))
  {
    StepClose(after, cap, Conversion(Stack(out, n), Stack(ops + [OpenBracket] + ys, n)));
    PopUntilOpenPending(out, ops, ys, n);
    assert Pop(Stack(ops + [OpenBracket], n)).value.stack == Stack(ops, n);
  }

  lemma ReverseWrapped(xs: seq<Fragment>)
    ensures Reverse([OpenBracket] + xs + [CloseBracket]) == [CloseBracket] + Reverse(xs) + [OpenBracket]
  {
    ReverseAppend([OpenBracket] + xs, [CloseBracket]);
    ReverseAppend([OpenBracket], xs);
    ReverseOne(OpenBracket);
    ReverseOne(CloseBracket);
  }

  /** Scanning all of Spelling(w) from the start. */
  lemma ScanWritten(w: Written, cap: nat)
    requires WellGrouped(w) && 0 < cap && |Spelling(w)| <= cap
    ensures ShuntingYard(Stack(Reverse(Spelling(w)), cap), Conversion(Stack([], cap), Stack([], cap)))
         == ShuntingYard(Stack([], cap), Conversion(Stack(Emitted(w), cap), Stack(Pending(w), cap)))
  {
    var empty: Stack<Fragment> := Stack([], cap);
    EmptyThen(Reverse(Spelling(w)));
    Consume(w, [], cap, Conversion(empty, empty));
    EmptyThen(Emitted(w));
    EmptyThen(Pending(w));
  }

  /** Draining what the scan left pending yields the postfix form. */
  lemma DrainWritten(w: Written, cap: nat)
    requires |PostfixOf(Meaning(w))| <= cap
    ensures ShuntingYard(Stack([], cap), Conversion(Stack(Emitted(w), cap), Stack(Pending(w), cap)))
         == Ok(Stack(PostfixOf(Meaning(w)), cap))
  {
    assert OpenBracket !in Pending(w);
    DrainAll(cap, Conversion(Stack(Emitted(w), cap), Stack(Pending(w), cap)));
    EmittedThenPending(w);
  }

  /** The conversion turns every well-grouped written expression into the
      postfix form of what it means. */
  lemma WrittenToPostfix(w: Written, expression: Stack<Fragment>)
    requires WellGrouped(w) && expression.Valid() && expression.elements == Spelling(w)
    ensures InfixToPostfix(expression) == Ok(Stack(PostfixOf(Meaning(w)), Size(expression)))
  {
    var cap := Size(expression);
    assert New<Fragment>(cap) == Stack([], cap);
    ScanWritten(w, cap);
    DrainWritten(w, cap);
  }

  /**
    Infix evaluation reads every well-grouped written expression as the
    tree it was written for: precedence and associativity, applied by the
    operator loop, and the brackets, however many, rebuild that tree.
   */
  lemma WrittenRoundTrip(w: Written, expression: Stack<Fragment>)
    requires WellGrouped(w) && expression.Valid() && expression.elements == Spelling(w)
    ensures EvaluateInfix(expression) == Ok(Meaning(w))
  {
    WrittenToPostfix(w, expression);
    PostfixProofs.PostfixRoundTrip(Meaning(w), Stack(PostfixOf(Meaning(w)), Size(expression)));
  }

  /** The conversion turns the minimally bracketed form into the postfix
      form. */
  lemma InfixOfToPostfix(v: Value, expression: Stack<Fragment>)
    requires expression.Valid() && expression.elements == InfixOf(v)
    ensures InfixToPostfix(expression) == Ok(Stack(PostfixOf(v), Size(expression)))
  {
    MinimalIsWellGrouped(v);
    WrittenToPostfix(Minimal(v), expression);
  }

  /** Infix evaluation inverts the printer that brackets only where needed. */
  lemma InfixOfRoundTrip(v: Value, expression: Stack<Fragment>)
    requires expression.Valid() && expression.elements == InfixOf(v)
    ensures EvaluateInfix(expression) == Ok(v)
  {
    MinimalIsWellGrouped(v);
    WrittenRoundTrip(Minimal(v), expression);
  }

  /** Infix evaluation inverts the fully bracketed printer. */
  lemma InfixRoundTrip(v: Value, expression: Stack<Fragment>)
    requires expression.Valid() && expression.elements == BracketedInfixOf(v)
    ensures InfixToPostfix(expression) == Ok(Stack(PostfixOf(v), Size(expression)))
    ensures EvaluateInfix(expression) == Ok(v)
  {
    FullIsWellGrouped(v);
    WrittenToPostfix(Full(v), expression);
    WrittenRoundTrip(Full(v), expression);
  }

  /** From the input line: tokens that spell a well-grouped expression, one
      token per fragment, evaluate to what it means. */
  lemma TokensEvaluate(w: Written, tokens: seq<string>, isNumber: NumberSyntax)
    requires WellGrouped(w) && |tokens| == |Spelling(w)|
    requires forall j :: 0 <= j < |tokens| ==> Classify(tokens[j], isNumber) == Ok(Spelling(w)[j])
    ensures Tokenize(tokens, isNumber).Ok?
    ensures EvaluateInfix(Tokenize(tokens, isNumber).value) == Ok(Meaning(w))
  {
    TokenizeIsStackOf(tokens, isNumber, Spelling(w));
    WrittenRoundTrip(w, StackOf(Spelling(w)));
  }
}
