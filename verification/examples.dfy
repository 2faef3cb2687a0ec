/**
  How precedence, associativity and brackets shape the result, and which
  error each kind of malformed input gives, on small expressions.
 */
module Examples {
  import opened Results
  import opened BoundedStack
  import opened Operators
  import opened Fragments
  import opened ExpressionEvaluator
  import opened Notation
  import opened InfixProofs
  import PostfixProofs
  import PrefixProofs
  import PrecedenceProofs

  function Literal(s: string): Fragment {
    Operand(Number(s))
  }

  /**
    For `a o1 b o2 c` without brackets, `o1` takes `b` exactly when it binds
    tighter than `o2`, or as tight and is left-associative; otherwise `o2`
    does.
   */
  lemma TwoOperatorShape(a: string, b: string, c: string, o1: Operator, o2: Operator)
    ensures var xs := [Literal(a), Operation(o1), Literal(b), Operation(o2), Literal(c)];
      EvaluateInfix(StackOf(xs))
      == Ok(if Precedence(o1) < Precedence(o2) || (Precedence(o1) == Precedence(o2) && IsLeftAssociative(o1))
            then Node(o2, Node(o1, Number(a), Number(b)), Number(c))
            else Node(o1, Number(a), Node(o2, Number(b), Number(c))))
  {
    var xs := [Literal(a), Operation(o1), Literal(b), Operation(o2), Literal(c)];
    var la, lb, lc := Atom(a), Atom(b), Atom(c);
    if Yields(o1, o2) {
      var w := Binary(o2, Binary(o1, la, lb), lc);
      assert Spelling(Binary(o1, la, lb)) == [Literal(a), Operation(o1), Literal(b)];
      assert Spelling(w) == xs;
      PrecedenceProofs.WrittenRoundTrip(w, StackOf(xs));
    } else {
      var w := Binary(o1, la, Binary(o2, lb, lc));
      assert Spelling(Binary(o2, lb, lc)) == [Literal(b), Operation(o2), Literal(c)];
      assert Spelling(w) == xs;
      PrecedenceProofs.WrittenRoundTrip(w, StackOf(xs));
    }
  }

  /**
    Bracketed operands are single operands to the operator between them,
    whatever its precedence: `(u) o (w)` denotes `o` applied to `u` and `w`.
   */
  lemma BracketedOperands(u: Value, o: Operator, w: Value)
    ensures EvaluateInfix(StackOf(BracketedInfixOf(u) + [Operation(o)] + BracketedInfixOf(w))) == Ok(Node(o, u, w))
  {
    var written := Binary(o, Full(u), Full(w));
    PrecedenceProofs.FullIsWellGrouped(u);
    PrecedenceProofs.FullIsWellGrouped(w);
    PrecedenceProofs.WrittenRoundTrip(written, StackOf(Spelling(written)));
  }

  lemma BracketedNumbers(o: Operator, a: string, b: string)
    ensures BracketedInfixOf(Node(o, Number(a), Number(b))) == [OpenBracket, Literal(a), Operation(o), Literal(b), CloseBracket]
  {
    var inner := Binary(o, Atom(a), Atom(b));
    assert Full(Node(o, Number(a), Number(b))) == Group(inner);
    assert Spelling(inner) == [Literal(a), Operation(o), Literal(b)];
  }

  /** "(2 + 3) * 4": the brackets override precedence. */
  lemma BracketsOverridePrecedence()
    ensures EvaluateInfix(StackOf([OpenBracket, Literal("2"), Operation(Addition), Literal("3"), CloseBracket,
                                   Operation(Multiplication), Literal("4")]))
         == Ok(Node(Multiplication, Node(Addition, Number("2"), Number("3")), Number("4")))
  {
    var u := Node(Addition, Number("2"), Number("3"));
    BracketedNumbers(Addition, "2", "3");
    assert BracketedInfixOf(Number("4")) == [Literal("4")];
    assert BracketedInfixOf(u) + [Operation(Multiplication)] + BracketedInfixOf(Number("4"))
        == [OpenBracket, Literal("2"), Operation(Addition), Literal("3"), CloseBracket, Operation(Multiplication), Literal("4")];
    BracketedOperands(u, Multiplication, Number("4"));
  }

  /** "2 + 3 * 4": multiplication binds tighter. */
  lemma MultiplicationBeforeAddition()
    ensures EvaluateInfix(StackOf([Literal("2"), Operation(Addition), Literal("3"), Operation(Multiplication), Literal("4")]))
         == Ok(Node(Addition, Number("2"), Node(Multiplication, Number("3"), Number("4"))))
  {
    TwoOperatorShape("2", "3", "4", Addition, Multiplication);
  }

  /** "2 ^ 3 ^ 2" is 2 ^ (3 ^ 2). */
  lemma ExponentiationIsRightAssociative()
    ensures EvaluateInfix(StackOf([Literal("2"), Operation(Exponentiation), Literal("3"), Operation(Exponentiation), Literal("2")]))
         == Ok(Node(Exponentiation, Number("2"), Node(Exponentiation, Number("3"), Number("2"))))
  {
    TwoOperatorShape("2", "3", "2", Exponentiation, Exponentiation);
  }

  /** "8 - 3 - 2" is (8 - 3) - 2. */
  lemma SubtractionIsLeftAssociative()
    ensures EvaluateInfix(StackOf([Literal("8"), Operation(Subtraction), Literal("3"), Operation(Subtraction), Literal("2")]))
         == Ok(Node(Subtraction, Node(Subtraction, Number("8"), Number("3")), Number("2")))
  {
    TwoOperatorShape("8", "3", "2", Subtraction, Subtraction);
  }

  /** "2 * 3 + 4 ^ 2 ^ 3", unbracketed: multiplication before addition,
      exponentiation grouping to the right. */
  lemma MixedChain()
    ensures EvaluateInfix(StackOf([Literal("2"), Operation(Multiplication), Literal("3"), Operation(Addition),
                                   Literal("4"), Operation(Exponentiation), Literal("2"), Operation(Exponentiation), Literal("3")]))
         == Ok(Node(Addition, Node(Multiplication, Number("2"), Number("3")),
                    Node(Exponentiation, Number("4"), Node(Exponentiation, Number("2"), Number("3")))))
  {
    var two, three, four := Number("2"), Number("3"), Number("4");
    var product := Node(Multiplication, two, three);
    var tower := Node(Exponentiation, two, three);
    var power := Node(Exponentiation, four, tower);
    var v := Node(Addition, product, power);
    assert InfixOf(product) == [Operand(two), Operation(Multiplication), Operand(three)];
    assert InfixOf(tower) == [Operand(two), Operation(Exponentiation), Operand(three)];
    assert InfixOf(power) == [Operand(four), Operation(Exponentiation)] + InfixOf(tower);
    assert InfixOf(v) == InfixOf(product) + [Operation(Addition)] + InfixOf(power);
    NineOf(Operand(two), Operation(Multiplication), Operand(three), Operation(Addition),
           Operand(four), Operation(Exponentiation), Operand(two), Operation(Exponentiation), Operand(three));
    PrecedenceProofs.InfixOfRoundTrip(v, StackOf(InfixOf(v)));
  }

  lemma NineOf<T>(a: T, b: T, c: T, d: T, e: T, f: T, g: T, h: T, i: T)
    ensures [a, b, c] + [d] + ([e, f] + [g, h, i]) == [a, b, c, d, e, f, g, h, i]
  {
  }

  /** "3 4 +" is 3 + 4. */
  lemma PostfixSum()
    ensures EvaluatePostfix(StackOf([Literal("3"), Literal("4"), Operation(Addition)])) == Ok(Node(Addition, Number("3"), Number("4")))
  {
    var v := Node(Addition, Number("3"), Number("4"));
    PostfixProofs.PostfixRoundTrip(v, StackOf(PostfixOf(v)));
  }

  /** "+ 3 4" is 3 + 4. */
  lemma PrefixSum()
    ensures EvaluatePrefix(StackOf([Operation(Addition), Literal("3"), Literal("4")])) == Ok(Node(Addition, Number("3"), Number("4")))
  {
    var v := Node(Addition, Number("3"), Number("4"));
    PrefixProofs.PrefixRoundTrip(v, StackOf(PrefixOf(v)));
  }

  /** "( 3 + 4 )" is 3 + 4. */
  lemma BracketedSum()
    ensures EvaluateInfix(StackOf([OpenBracket, Literal("3"), Operation(Addition), Literal("4"), CloseBracket]))
         == Ok(Node(Addition, Number("3"), Number("4")))
  {
    var v := Node(Addition, Number("3"), Number("4"));
    var xs := [OpenBracket, Literal("3"), Operation(Addition), Literal("4"), CloseBracket];
    assert xs == BracketedInfixOf(v);
    PrecedenceProofs.InfixRoundTrip(v, StackOf(xs));
  }

  /** "( 2 * 3 ) + 4": brackets the precedence makes redundant are
      accepted and change nothing. */
  lemma RedundantBrackets()
    ensures EvaluateInfix(StackOf([OpenBracket, Literal("2"), Operation(Multiplication), Literal("3"), CloseBracket,
                                   Operation(Addition), Literal("4")]))
         == Ok(Node(Addition, Node(Multiplication, Number("2"), Number("3")), Number("4")))
  {
    var product := Binary(Multiplication, Atom("2"), Atom("3"));
    var w := Binary(Addition, Group(product), Atom("4"));
    assert Spelling(product) == [Literal("2"), Operation(Multiplication), Literal("3")];
    assert Spelling(Group(product)) == [OpenBracket, Literal("2"), Operation(Multiplication), Literal("3"), CloseBracket];
    assert Spelling(w) == [OpenBracket, Literal("2"), Operation(Multiplication), Literal("3"), CloseBracket,
                           Operation(Addition), Literal("4")];
    PrecedenceProofs.WrittenRoundTrip(w, StackOf(Spelling(w)));
  }

  /** "( ( 2 ) )" is 2. */
  lemma NestedBrackets()
    ensures EvaluateInfix(StackOf([OpenBracket, OpenBracket, Literal("2"), CloseBracket, CloseBracket])) == Ok(Number("2"))
  {
    var w := Group(Group(Atom("2")));
    assert Spelling(w) == [OpenBracket, OpenBracket, Literal("2"), CloseBracket, CloseBracket];
    PrecedenceProofs.WrittenRoundTrip(w, StackOf(Spelling(w)));
  }

  /** "(2 + 3" is an invalid expression: the bracket is never closed. */
  lemma UnclosedBracket()
    ensures EvaluateInfix(StackOf([OpenBracket, Literal("2"), Operation(Addition), Literal("3")])) == Err(InvalidExpression)
  {
    var xs := [OpenBracket, Literal("2"), Operation(Addition), Literal("3")];
    assert xs[0] == OpenBracket;
    NoCloseBalance(xs, 0);
    InfixBracketsMustBalance(StackOf(xs));
  }

  /** "2 + 3)" is an invalid expression: nothing is open to close. */
  lemma UnopenedBracket()
    ensures EvaluateInfix(StackOf([Literal("2"), Operation(Addition), Literal("3"), CloseBracket])) == Err(InvalidExpression)
  {
    var xs := [Literal("2"), Operation(Addition), Literal("3"), CloseBracket];
    assert xs[3] == CloseBracket;
    NoOpenBalance(xs);
    InfixBracketsMustBalance(StackOf(xs));
  }

  /** "2 +" and "( )" balance their brackets, so infix evaluation fails
      with the empty-stack error of the missing operand, not with an
      invalid expression. */
  lemma BalancedButIncomplete()
    ensures EvaluateInfix(StackOf([Literal("2"), Operation(Addition)])) == Err(EmptyStack)
    ensures EvaluateInfix(StackOf([OpenBracket, CloseBracket])) == Err(EmptyStack)
  {
    DanglingOperator("2", Addition);
    EmptyBrackets();
  }

  /** `a o`: the conversion outputs it unchanged, and postfix evaluation
      finds one operand for `o`. */
  lemma DanglingOperator(a: string, o: Operator)
    ensures EvaluateInfix(StackOf([Literal(a), Operation(o)])) == Err(EmptyStack)
  {
    var xs := [Literal(a), Operation(o)];
    DanglingOperatorConversion(Literal(a), o);
    PostfixProofs.PostfixErrors(StackOf(xs));
  }

  /** The conversion of `x o`, for an operand `x`. */
  lemma DanglingOperatorConversion(x: Fragment, o: Operator)
    requires x.Operand?
    ensures InfixToPostfix(StackOf([x, Operation(o)])) == Ok(StackOf([x, Operation(o)]))
  {
    var p := Operation(o);
    var empty: Stack<Fragment> := Stack([], 2);
    var c := Conversion(Stack([x], 2), empty);
    var end := Conversion(Stack([x], 2), Stack([p], 2));
    assert InfixToPostfix(StackOf([x, p])) == ShuntingYard(Stack([p] + [x], 2), Conversion(empty, empty)) by {
      assert New<Fragment>(2) == empty;
      assert Reverse([x, p]) == [p] + [x];
    }
    assert ShuntingYard(Stack([p] + [x], 2), Conversion(empty, empty)) == ShuntingYard(Stack([p], 2), c) by {
      StepOperand([p], x, 2, Conversion(empty, empty));
      EmptyThen([x]);
    }
    assert ShuntingYard(Stack([p], 2), c) == ShuntingYard(empty, end) by {
      EmptyThen([p]);
      StepOperator([], o, 2, c);
      assert PopWhileYielding(c, o) == c;
    }
    assert ShuntingYard(empty, end) == Ok(StackOf([x, p])) by {
      DrainAll(2, end);
      ReverseOne(p);
      assert [x] + [p] == [x, p];
    }
  }

  /** "( )": the brackets cancel and leave nothing to evaluate. */
  lemma EmptyBrackets()
    ensures EvaluateInfix(StackOf([OpenBracket, CloseBracket])) == Err(EmptyStack)
  {
    var empty: Stack<Fragment> := Stack([], 2);
    var start := Conversion(empty, empty);
    var open := Conversion(empty, Stack([OpenBracket], 2));
    assert InfixToPostfix(StackOf([OpenBracket, CloseBracket])) == ShuntingYard(Stack([CloseBracket] + [OpenBracket], 2), start) by {
      assert New<Fragment>(2) == empty;
      assert Reverse([OpenBracket, CloseBracket]) == [CloseBracket] + [OpenBracket];
    }
    assert ShuntingYard(Stack([CloseBracket] + [OpenBracket], 2), start) == ShuntingYard(Stack([CloseBracket], 2), open) by {
      StepOpen([CloseBracket], 2, start);
      EmptyThen([OpenBracket]);
    }
    assert ShuntingYard(Stack([CloseBracket], 2), open) == ShuntingYard(empty, start) by {
      EmptyThen([CloseBracket]);
      StepClose([], 2, open);
      assert PopUntilOpen(open) == open;
    }
    PostfixProofs.PostfixErrors(empty);
  }

  /** Infix evaluation inherits the postfix leniency on surplus operands:
      "2 3" converts to itself and evaluates to its last operand. */
  lemma InfixSurplusOperand(a: string, b: string)
    ensures EvaluateInfix(StackOf([Literal(a), Literal(b)])) == Ok(Number(b))
  {
    var xs := [Literal(a), Literal(b)];
    SurplusOperandConversion(Literal(a), Literal(b));
    assert xs == PostfixOf(Number(a)) + PostfixOf(Number(b));
    PostfixProofs.PostfixIgnoresExtraOperands(Number(a), Number(b), StackOf(xs));
  }

  /** The conversion of `x y`, for operands `x` and `y`. */
  lemma SurplusOperandConversion(x: Fragment, y: Fragment)
    requires x.Operand? && y.Operand?
    ensures InfixToPostfix(StackOf([x, y])) == Ok(StackOf([x, y]))
  {
    var empty: Stack<Fragment> := Stack([], 2);
    var c := Conversion(Stack([x], 2), empty);
    var end := Conversion(Stack([x, y], 2), empty);
    assert InfixToPostfix(StackOf([x, y])) == ShuntingYard(Stack([y] + [x], 2), Conversion(empty, empty)) by {
      assert New<Fragment>(2) == empty;
      assert Reverse([x, y]) == [y] + [x];
    }
    assert ShuntingYard(Stack([y] + [x], 2), Conversion(empty, empty)) == ShuntingYard(Stack([y], 2), c) by {
      StepOperand([y], x, 2, Conversion(empty, empty));
      EmptyThen([x]);
    }
    assert ShuntingYard(Stack([y], 2), c) == ShuntingYard(empty, end) by {
      EmptyThen([y]);
      StepOperand([], y, 2, c);
      assert [x] + [y] == [x, y];
    }
    assert ShuntingYard(empty, end) == Ok(StackOf([x, y])) by {
      DrainAll(2, end);
      assert [x, y] + Reverse<Fragment>([]) == [x, y];
    }
  }

  /** Nor does infix evaluation check where the operator stands: "+ 2 3"
      converts to "2 3 +" and is 2 + 3. */
  lemma InfixOperatorFirst(o: Operator, a: string, b: string)
    ensures EvaluateInfix(StackOf([Operation(o), Literal(a), Literal(b)])) == Ok(Node(o, Number(a), Number(b)))
  {
    var v := Node(o, Number(a), Number(b));
    OperatorFirstConversion(o, Literal(a), Literal(b));
    assert [Literal(a), Literal(b), Operation(o)] == PostfixOf(v);
    PostfixProofs.PostfixRoundTrip(v, StackOf(PostfixOf(v)));
  }

  /** The conversion of `o x y`, for operands `x` and `y`. */
  lemma OperatorFirstConversion(o: Operator, x: Fragment, y: Fragment)
    requires x.Operand? && y.Operand?
    ensures InfixToPostfix(StackOf([Operation(o), x, y])) == Ok(StackOf([x, y, Operation(o)]))
  {
    var p := Operation(o);
    var empty: Stack<Fragment> := Stack([], 3);
    var c := Conversion(Stack([x], 3), Stack([p], 3));
    OperatorPushedFirst(o, x, y);
    assert ShuntingYard(Stack([y] + [x], 3), Conversion(empty, Stack([p], 3))) == ShuntingYard(Stack([y], 3), c) by {
      StepOperand([y], x, 3, Conversion(empty, Stack([p], 3)));
      EmptyThen([x]);
    }
    LastOperandThenDrain(o, x, y);
  }

  /** The last operand `y` of `o x y`, then the drain that outputs `o`. */
  lemma LastOperandThenDrain(o: Operator, x: Fragment, y: Fragment)
    requires x.Operand? && y.Operand?
    ensures ShuntingYard(Stack([y], 3), Conversion(Stack([x], 3), Stack([Operation(o)], 3)))
         == Ok(StackOf([x, y, Operation(o)]))
  {
    var p := Operation(o);
    var empty: Stack<Fragment> := Stack([], 3);
    var c := Conversion(Stack([x], 3), Stack([p], 3));
    var end := Conversion(Stack([x, y], 3), Stack([p], 3));
    assert ShuntingYard(Stack([y], 3), c) == ShuntingYard(empty, end) by {
      EmptyThen([y]);
      StepOperand([], y, 3, c);
      assert [x] + [y] == [x, y];
    }
    DrainAll(3, end);
    ReverseOne(p);
    assert [x, y] + [p] == [x, y, p];
  }

  /** An operator read first, with nothing pending, is pushed. */
  lemma OperatorPushedFirst(o: Operator, x: Fragment, y: Fragment)
    requires x.Operand? && y.Operand?
    ensures InfixToPostfix(StackOf([Operation(o), x, y]))
         == ShuntingYard(Stack([y] + [x], 3), Conversion(Stack([], 3), Stack([Operation(o)], 3)))
  {
    var p := Operation(o);
    var empty: Stack<Fragment> := Stack([], 3);
    var start := Conversion(empty, empty);
    assert InfixToPostfix(StackOf([p, x, y])) == ShuntingYard(Stack([y, x] + [p], 3), start) by {
      assert New<Fragment>(3) == empty;
      assert [p, x, y][1..] == [x, y] && [x, y][1..] == [y];
      ReverseOne(y);
      assert Reverse([p, x, y]) == [y, x] + [p];
    }
    StepOperator([y, x], o, 3, start);
    assert PopWhileYielding(start, o) == start;
    EmptyThen([p]);
    assert [y, x] == [y] + [x];
  }

  /** "3 +" in postfix runs out of operands: the stack's empty-stack error,
      not an invalid expression. */
  lemma MissingOperandIsEmptyStack()
    ensures EvaluatePostfix(StackOf([Literal("3"), Operation(Addition)])) == Err(EmptyStack)
    ensures EvaluatePrefix(StackOf([Operation(Addition), Literal("3")])) == Err(EmptyStack)
  {
    PostfixProofs.PostfixErrors(StackOf([Literal("3"), Operation(Addition)]));
    PrefixProofs.PrefixErrors(StackOf([Operation(Addition), Literal("3")]));
  }

  /** A bracket in postfix or prefix input is an invalid expression. */
  lemma BracketOutsideInfix()
    ensures EvaluatePostfix(StackOf([OpenBracket, Literal("3"), CloseBracket])) == Err(InvalidExpression)
    ensures EvaluatePrefix(StackOf([OpenBracket, Literal("3"), CloseBracket])) == Err(InvalidExpression)
  {
    PostfixProofs.PostfixErrors(StackOf([OpenBracket, Literal("3"), CloseBracket]));
    PrefixProofs.PrefixErrors(StackOf([OpenBracket, Literal("3"), CloseBracket]));
  }

  /** A blank line splits into one empty token, which no constructor
      accepts; so does a word the number parser refuses. */
  lemma UnrecognisedTokens(isNumber: NumberSyntax)
    requires !isNumber("abc")
    ensures Tokenize([""], isNumber) == Err(InvalidExpression)
    ensures Tokenize(["3", "abc", "+"], isNumber) == Err(InvalidExpression)
  {
    assert Classify(["3", "abc", "+"][1], isNumber).Err?;
  }

  /** Bracket shapes are forgotten once classified, so "( 2 ]" tokenizes
      exactly like "( 2 )". */
  lemma ShapesAreNotPaired(isNumber: NumberSyntax)
    ensures Classify("[", isNumber) == Classify("(", isNumber) == Ok(OpenBracket)
    ensures Classify("]", isNumber) == Classify(")", isNumber) == Ok(CloseBracket)
    ensures Tokenize(["(", "2", "]"], isNumber) == Tokenize(["(", "2", ")"], isNumber)
  {
    var square, round := Tokenize(["(", "2", "]"], isNumber), Tokenize(["(", "2", ")"], isNumber);
    assert Classify(["(", "2", "]"][1], isNumber) == Classify(["(", "2", ")"][1], isNumber);
    assert square.Ok? <==> round.Ok?;
    if square.Ok? {
      assert square.value.elements == round.value.elements;
    }
  }
}
