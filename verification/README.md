# Expression evaluator — a Dafny model

This project models the core of ExpressionEvaluator, a small Java program
that reads one arithmetic expression in infix, postfix or prefix notation
and evaluates it with stacks. The model covers the following parts:

- **`BoundedStack`**: the fixed-capacity array stack `Stack<T>`. Its state
  is the sequence of elements from bottom to top plus the capacity
  (`Size`, the Java `getSize`). The `topIndex` cursor is
  `|elements| - 1`.
- **`Operators`**: the six binary operators. It gives each one's symbol,
  precedence and associativity, the string constructor, and `compareTo`.
  Operand values are abstract expression trees (`Value`), so `apply`
  builds a node with its left and right operands in place.
- **`Fragments`**: the four kinds of expression fragment (operand,
  operator, open bracket, close bracket). It also has the string
  constructors of operands and brackets.
- **`ExpressionEvaluator`**: the static methods that do the work:
  - `Tokenize` (`convertExpressionToStack`);
  - `ReverseStack` (`reverseStack`);
  - the postfix and prefix evaluation loops;
  - the shunting-yard conversion, split into its popping loops
    (`PopWhileYielding`, `PopUntilOpen`, `Drain`) and the scanning loop
    (`ShuntingYard`);
  - `EvaluateInfix`.
- **`Notation`**: the reference printers. They write an expression tree
  in postfix and in prefix. For infix, a `Written` expression records
  where the brackets stand, node by node. Its `Spelling` is its fragment
  sequence and its `Meaning` is the tree it stands for. `WellGrouped`
  says its brackets suffice for precedence and associativity; extra
  brackets are allowed anywhere. Two printers are special cases:
  `InfixOf`, with brackets only where needed, and `BracketedInfixOf`,
  with every application bracketed. Notation also shows that the
  tokenizer builds exactly the fragment stack these printers describe.
- **`PostfixProofs`, `PrefixProofs`, `InfixProofs`**: the evaluators
  against those printers.
  - A round trip for postfix and prefix.
  - An exact description of which postfix and prefix inputs fail, and
    with which error.
  - For infix: the conversion succeeds exactly when the brackets
    balance. Infix evaluation fails with `InvalidExpression` exactly when
    they do not; on balanced input its only failure is `EmptyStack`.
- **`PrecedenceProofs`**: what infix evaluation computes. Every
  well-grouped written expression, however many redundant brackets it
  has, evaluates to its meaning. The operator loop, not the brackets,
  decides which operator takes which unbracketed operand. The minimal
  printer's bracket rule is proved to be exactly the loop's yield test.
  Round trips for both infix printers follow.
- **`Examples`**: how precedence, associativity and brackets shape the
  result. It has a general two-operator theorem, a bracketed-operand
  theorem, and sample expressions for each notation and each kind of
  error.

Every operation is a pure function over immutable states. A Java call
that mutates a stack returns the new stack in the model. A Java exception
is an `Err` carrying `InvalidExpression`, `EmptyStack`
(`NoSuchElementException`) or `IllegalArgument`. A Java `null` string is
`None`. `Double.parseDouble` is a parameter: a predicate `isNumber` of
type `NumberSyntax`, which must refuse the empty string and the ten
operator and bracket symbols.

In these points the code behaves differently from what its exception
names and commented-out messages suggest. The model follows the code:

- Every bracket error of the infix evaluator is the same
  `InvalidExpression` as any other malformed expression. There is no
  separate bracket-mismatch error
  (src/ExpressionEvaluator.java:105 and :136).
- Running out of operands in the postfix or prefix loop is the stack's
  `NoSuchElementException` (`EmptyStack`), not `InvalidExpression`
  (src/ExpressionEvaluator.java:160-161, :169, :186 and :194). So `main`
  does not catch it.
- Surplus operands are not an error. Postfix returns the value of the
  last complete expression, which is the top of the operand stack. For
  `1 2 + 3` that is 3. Prefix returns the value of the first complete
  expression (`PostfixIgnoresExtraOperands`,
  `PrefixIgnoresExtraOperands`).
- Infix evaluation inherits this leniency, because it evaluates its
  converted output as postfix (src/ExpressionEvaluator.java:142). So
  infix `2 3` is 3 (`Examples.InfixSurplusOperand`). The position of the
  operator is not checked either: infix `+ 2 3` is 2 + 3
  (`Examples.InfixOperatorFirst`).
- A blank line splits into the single token `""`. No constructor accepts
  it, so it is `InvalidExpression` (`Examples.UnrecognisedTokens`).

## Model

| member | source | states |
|---|---|---|
| BoundedStack.New | src/Stack.java:41-47 | a new stack is empty and valid; its capacity is the requested size, or 10 when the size is not positive |
| BoundedStack.Default | src/Stack.java:30-34 | the no-argument constructor gives an empty valid stack of capacity 10 |
| BoundedStack.Size | src/Stack.java:68-71 | the length of the backing array: positive on a valid stack and never below the element count |
| BoundedStack.CapacityNeverChanges | src/Stack.java:163-188 | the capacity is fixed when the stack is built: no sequence of pushes and pops changes it or breaks the class invariant |
| BoundedStack.Count | src/Stack.java:58-61 | the element count is topIndex + 1, which is between 0 and the capacity on a valid stack |
| BoundedStack.IsEmpty | src/Stack.java:80-86 | empty exactly when the count is 0, i.e. when there are no elements |
| BoundedStack.IsFull | src/Stack.java:95-103 | full exactly when the count equals the capacity |
| BoundedStack.Peek | src/Stack.java:113-119 | fails with NoSuchElementException exactly on an empty stack; otherwise returns the last element pushed |
| BoundedStack.Pop | src/Stack.java:163-170 | fails exactly on an empty stack; otherwise returns what peek returns, and the remaining elements plus that element are the old elements; capacity and validity are kept |
| BoundedStack.Push | src/Stack.java:180-188 | on a full stack returns false and changes nothing; otherwise succeeds, the new top is x, the count grows by one and the elements below are unchanged |
| BoundedStack.PushThenPop | src/Stack.java:163-188 | a successful push followed by pop gives back the pushed element and the earlier stack |
| BoundedStack.PopThenPush | src/Stack.java:163-188 | popping a non-empty stack and pushing the element back restores it |
| ExpressionEvaluator.ReverseStack | src/ExpressionEvaluator.java:64-74 | the new stack holds the old elements in reverse order with the same capacity, and the drained input stack is empty |
| Operators.Precedence | src/Operator.java:44-55 | ranks lie in 1..3; only exponentiation has rank 1, and only addition and subtraction have rank 3 |
| Operators.IsLeftAssociative | src/Operator.java:146-149 | an operator is left-associative exactly when it is not of rank 1 (exponentiation) |
| Operators.Symbol | src/Operator.java:135-138 | the one-character symbol the operator was built from, always one of the six accepted symbols; building an operator from it gives the operator back (SymbolRoundTrip) |
| Operators.NewOperator | src/Operator.java:72-112 | accepts exactly the six symbols (null and anything else give IllegalArgumentException), and the operator built reports the string it was built from |
| Operators.SymbolRoundTrip | src/Operator.java:135-138 | building an operator from getSymbol() of any operator gives that operator back |
| Operators.SymbolInjective | src/Operator.java:135-138 | distinct operators have distinct symbols |
| Operators.Table | src/Operator.java:22-55 | each symbol maps to its operator with the precedence and associativity that Operator.java assigns it |
| Operators.CompareTo | src/Operator.java:125-128 | compareTo is positive when this operator binds tighter than that, zero when the ranks are equal, and negative otherwise |
| Operators.CompareToAntisymmetric | src/Operator.java:125-128 | swapping the two operators negates compareTo |
| Fragments.NewOperand | src/Operand.java:16-28 | accepts exactly the non-null strings the number parser accepts, and keeps the literal; otherwise IllegalArgumentException |
| Fragments.NewOpenBracket | src/OpenBracket.java:13-18 | accepts exactly "(" and "["; null and anything else give IllegalArgumentException |
| Fragments.NewCloseBracket | src/CloseBracket.java:13-18 | accepts exactly ")" and "]"; null and anything else give IllegalArgumentException |
| Fragments.KindsAreDisjoint | src/ExpressionEvaluator.java:30-57 | no token is accepted by two of the four fragment constructors, so trying them in order is unambiguous |
| ExpressionEvaluator.Classify | src/ExpressionEvaluator.java:30-57 | a token becomes an operator exactly when it is an operator symbol, an operand exactly when the number parser accepts it, and a bracket exactly when it is a bracket symbol; anything else is InvalidExpression |
| ExpressionEvaluator.Tokenize | src/ExpressionEvaluator.java:23-62 | succeeds exactly when every token classifies; the stack is valid, has one slot per token, and holds each token's fragment bottom to top in input order; otherwise InvalidExpression |
| ExpressionEvaluator.EvaluatePostfix | src/ExpressionEvaluator.java:145-170 | every failure is InvalidExpression or the stack's empty-stack error |
| ExpressionEvaluator.EvaluatePrefix | src/ExpressionEvaluator.java:172-195 | every failure is InvalidExpression or the stack's empty-stack error |
| ExpressionEvaluator.StopTestMeansNotYielding | src/ExpressionEvaluator.java:115-117 | the loop's compareTo break test holds exactly when the top operator does not bind tighter and is not an equal-rank left-associative operator |
| ExpressionEvaluator.MoveTop | src/ExpressionEvaluator.java:102 | one pop-and-push moves the top pending fragment to the end of the output |
| ExpressionEvaluator.PopWhileYielding | src/ExpressionEvaluator.java:112-120 | the operator loop keeps only operators and open brackets pending and moves fragments without losing any |
| ExpressionEvaluator.PopWhileYieldingShape | src/ExpressionEvaluator.java:112-120 | the operator loop leaves a prefix of the pending stack and appends the rest to the output in pop order |
| ExpressionEvaluator.PopWhileYieldingMovesYielding | src/ExpressionEvaluator.java:112-120 | every fragment the operator loop moves is an operator that binds tighter than the current one, or equally tight and left-associative |
| ExpressionEvaluator.PopWhileYieldingStops | src/ExpressionEvaluator.java:112-120 | the operator loop stops only at an empty stack, an open bracket, or an operator that does not yield |
| ExpressionEvaluator.PopUntilOpen | src/ExpressionEvaluator.java:99-103 | the close-bracket loop stops at an empty pending stack or with an open bracket on top, keeps only operators and brackets pending, and moves fragments to the output without losing any |
| ExpressionEvaluator.PopUntilOpenShape | src/ExpressionEvaluator.java:99-103 | the close-bracket loop moves, in pop order, exactly the fragments above the topmost open bracket (all of them if there is none), and none of them is an open bracket |
| ExpressionEvaluator.Drain | src/ExpressionEvaluator.java:130-140 | the final loop fails with InvalidExpression exactly when a bracket is still pending; otherwise it appends the pending operators to the output in pop order |
| ExpressionEvaluator.ShuntingYard | src/ExpressionEvaluator.java:85-140 | every failure of the conversion is InvalidExpression, and the output keeps the capacity |
| ExpressionEvaluator.InfixToPostfix | src/ExpressionEvaluator.java:76-140 | on success the postfix stack is valid and has the input's capacity; every failure is InvalidExpression |
| ExpressionEvaluator.EvaluateInfix | src/ExpressionEvaluator.java:76-143 | every failure is InvalidExpression or the stack's empty-stack error |
| PostfixProofs.PostfixRoundTrip | src/ExpressionEvaluator.java:145-170 | postfix evaluation of the postfix form of any expression tree gives that tree back, with the first-pushed operand on the left |
| PostfixProofs.PostfixLoopStep | src/ExpressionEvaluator.java:150-169 | one pass of the postfix loop: an operand is pushed; a bracket is InvalidExpression; an operator with fewer than two operands waiting is the empty-stack error; otherwise the two top operands become one, the lower one on the left |
| PostfixProofs.PostfixIgnoresExtraOperands | src/ExpressionEvaluator.java:169 | when two complete postfix expressions are written one after the other, the result is the second; the extra operand is not an error |
| PostfixProofs.PostfixErrors | src/ExpressionEvaluator.java:150-169 | postfix evaluation fails exactly when a left-to-right depth count finds a bracket, an operator with fewer than two operands, or no operand at the end, and with that error kind |
| PrefixProofs.PrefixRoundTrip | src/ExpressionEvaluator.java:172-195 | prefix evaluation of the prefix form of any expression tree gives that tree back, with the first-popped operand on the left |
| PrefixProofs.PrefixIgnoresExtraOperands | src/ExpressionEvaluator.java:194 | when two complete prefix expressions are written one after the other, the result is the first |
| PrefixProofs.PrefixErrors | src/ExpressionEvaluator.java:176-194 | prefix evaluation fails exactly when a right-to-left depth count finds a bracket, an operator with fewer than two operands, or no operand at the end, and with that error kind |
| InfixProofs.DrainSucceedsIffNoOpen | src/ExpressionEvaluator.java:130-140 | the final loop succeeds exactly when no open bracket is pending |
| InfixProofs.ShuntingYardBalance | src/ExpressionEvaluator.java:85-140 | from any reachable state, the conversion succeeds exactly when the remaining brackets balance against the pending open brackets |
| InfixProofs.InfixBracketsMustBalance | src/ExpressionEvaluator.java:76-143 | the infix conversion succeeds exactly when no close bracket lacks an earlier open one and none stays open; otherwise evaluation is InvalidExpression |
| InfixProofs.ShuntingYardBracketFree | src/ExpressionEvaluator.java:85-140 | the conversion never outputs a bracket: from any reachable state with a bracket-free output, a successful scan and drain leave only operands and operators on the output |
| InfixProofs.PostfixVerdictBracketFree | src/ExpressionEvaluator.java:150-169 | on bracket-free input the postfix depth count never reports an invalid expression |
| InfixProofs.InfixInvalidIffUnbalanced | src/ExpressionEvaluator.java:76-169 | infix evaluation fails with InvalidExpression exactly when the brackets do not balance; when they balance, any failure is the empty-stack error of a missing operand |
| Notation.TokenizeIsStackOf | src/ExpressionEvaluator.java:23-62 | tokens that classify one by one as a fragment sequence tokenize to exactly the stack holding those fragments bottom to top, one slot per fragment |
| PrecedenceProofs.LeftBracketsIffNotYielding | src/ExpressionEvaluator.java:112-120 | an operator application needs brackets as the left operand of o exactly when the operator loop, run for o, would leave its operator pending |
| PrecedenceProofs.RightBracketsIffYielding | src/ExpressionEvaluator.java:112-120 | an operator application needs brackets as the right operand of o exactly when its own operator would pop o |
| PrecedenceProofs.PopWhileYieldingPending | src/ExpressionEvaluator.java:112-120 | with operators that all yield to the current one stacked above a fragment that stops the loop, the operator loop outputs exactly those operators, in pop order, and nothing else |
| PrecedenceProofs.PopUntilOpenPending | src/ExpressionEvaluator.java:99-103 | the close-bracket loop outputs exactly the operators above the topmost open bracket, in pop order, and leaves that bracket on top |
| PrecedenceProofs.MinimalIsWellGrouped | src/ExpressionEvaluator.java:112-120 | the brackets of the minimal printer are enough for the operator loop to rebuild the tree |
| PrecedenceProofs.FullIsWellGrouped | src/ExpressionEvaluator.java:93-107 | bracketing every application is always enough |
| PrecedenceProofs.EmittedThenPending | src/ExpressionEvaluator.java:130-140 | what the scan of a written expression has output, followed by its still-pending operators in pop order, is the postfix form of its meaning |
| PrecedenceProofs.PendingYields | src/ExpressionEvaluator.java:112-120 | every operator a well-grouped left operand leaves pending yields to the operator that follows it, so that operator outputs all of them |
| PrecedenceProofs.Consume | src/ExpressionEvaluator.java:85-128 | scanning a well-grouped written expression, above pending fragments that its unbracketed operator would not pop, outputs a fixed part of the postfix form of its meaning and pushes the rest as pending operators, leaving everything below untouched |
| PrecedenceProofs.ConsumeApply | src/ExpressionEvaluator.java:108-123 | an unbracketed application is scanned as its left operand, then its operator (which outputs what the left operand left pending), then its right operand above the pushed operator |
| PrecedenceProofs.ConsumeGroup | src/ExpressionEvaluator.java:93-107 | a bracket group is scanned whole: the postfix form of its meaning is output and the pending stack is as before |
| PrecedenceProofs.WrittenToPostfix | src/ExpressionEvaluator.java:76-140 | every well-grouped written expression converts to the postfix form of its meaning |
| PrecedenceProofs.WrittenRoundTrip | src/ExpressionEvaluator.java:76-143 | infix evaluation of every well-grouped written expression, whatever redundant brackets it has, gives the tree it means |
| PrecedenceProofs.InfixOfToPostfix | src/ExpressionEvaluator.java:76-140 | the minimally bracketed infix form of any tree converts to that tree's postfix form |
| PrecedenceProofs.InfixOfRoundTrip | src/ExpressionEvaluator.java:76-143 | infix evaluation of the minimally bracketed form of any tree gives that tree back: precedence and left or right grouping are applied exactly as the printer assumes |
| PrecedenceProofs.InfixRoundTrip | src/ExpressionEvaluator.java:76-143 | the fully bracketed infix form of any tree converts to its postfix form and evaluates to that tree |
| PrecedenceProofs.TokensEvaluate | src/ExpressionEvaluator.java:23-143 | tokens that spell a well-grouped written expression tokenize and evaluate to the tree it means |
| Examples.MixedChain | src/Operator.java:44-55 | "2 * 3 + 4 ^ 2 ^ 3" adds the product to 4 ^ (2 ^ 3) |
| Examples.TwoOperatorShape | src/ExpressionEvaluator.java:108-123 | in `a o1 b o2 c`, o1 takes b exactly when it binds tighter than o2, or as tight and left-associative; otherwise o2 takes b |
| Examples.BracketedOperands | src/ExpressionEvaluator.java:93-123 | a bracketed operand on either side of an operator is that operator's whole operand, whatever the precedences |
| Examples.BracketsOverridePrecedence | src/ExpressionEvaluator.java:93-107 | "(2 + 3) * 4" multiplies the sum by 4 |
| Examples.MultiplicationBeforeAddition | src/Operator.java:46-53 | "2 + 3 * 4" adds 2 to the product |
| Examples.ExponentiationIsRightAssociative | src/Operator.java:44-45 | "2 ^ 3 ^ 2" is 2 ^ (3 ^ 2) |
| Examples.SubtractionIsLeftAssociative | src/Operator.java:54-55 | "8 - 3 - 2" is (8 - 3) - 2 |
| Examples.PostfixSum | src/ExpressionEvaluator.java:160-161 | "3 4 +" is 3 + 4, with 3 on the left |
| Examples.PrefixSum | src/ExpressionEvaluator.java:186 | "+ 3 4" is 3 + 4, with 3 on the left |
| Examples.BracketedSum | src/ExpressionEvaluator.java:76-143 | "( 3 + 4 )" is 3 + 4 |
| Examples.RedundantBrackets | src/ExpressionEvaluator.java:93-123 | "( 2 * 3 ) + 4", with brackets precedence makes redundant, is still the product plus 4 |
| Examples.NestedBrackets | src/ExpressionEvaluator.java:93-107 | "( ( 2 ) )" is 2 |
| Examples.BalancedButIncomplete | src/ExpressionEvaluator.java:160-169 | "2 +" (at the operand pops of :160-161) and "( )" (at the final pop of :169) in infix fail with the empty-stack error, not InvalidExpression |
| Examples.InfixSurplusOperand | src/ExpressionEvaluator.java:142-169 | infix "a b" converts to itself and evaluates to b: the surplus operand is not an error |
| Examples.InfixOperatorFirst | src/ExpressionEvaluator.java:108-169 | infix "o a b" converts to "a b o" and evaluates to a o b: the operator's position is not checked |
| Examples.DanglingOperator | src/ExpressionEvaluator.java:160-161 | an operand followed by one operator, in infix, fails with the empty-stack error |
| Examples.EmptyBrackets | src/ExpressionEvaluator.java:99-106 | "( )" converts to an empty postfix stack, which fails with the empty-stack error |
| Examples.UnclosedBracket | src/ExpressionEvaluator.java:134-137 | "( 2 + 3" is InvalidExpression |
| Examples.UnopenedBracket | src/ExpressionEvaluator.java:105 | "2 + 3 )" is InvalidExpression |
| Examples.MissingOperandIsEmptyStack | src/ExpressionEvaluator.java:160-186 | "3 +" in postfix (the second pop at :161) and "+ 3" in prefix (the second pop at :186) fail with the stack's empty-stack error |
| Examples.BracketOutsideInfix | src/ExpressionEvaluator.java:163-166 | a bracket in postfix or prefix input is InvalidExpression |
| Examples.UnrecognisedTokens | src/ExpressionEvaluator.java:52-55 | a blank line and a token the number parser refuses are InvalidExpression |
| Examples.ShapesAreNotPaired | src/ExpressionEvaluator.java:44-50 | "(" and "[" tokenize alike, as do ")" and "]", so "( 2 ]" is read as "( 2 )" |

## Left out

- `main`: the console dialogue, the notation menu and the printing of the
  result are left out as I/O. Note that it catches only the
  invalid-expression exception, so an operand underflow (`EmptyStack`)
  ends the program instead of printing "Invalid expression!".
- The whitespace split of the input line (`trim().split("\\s+")`): the
  model takes the token sequence as input. The split of a blank line is
  `[""]`.
- `Double.parseDouble`: it is the abstract `isNumber` predicate. Only its
  refusal of "" and of the ten operator and bracket symbols is assumed.
- Floating-point arithmetic in `apply`: operands are expression trees, so
  the model proves the structure of the result (which operator applies to
  which operands, in which order) rather than its numeric value. NaN,
  infinities and rounding are not modelled.
- ExpressionEvaluator.EvaluateInfix: its own contract gives only the
  kinds of failure. What it computes on well-grouped input is stated by
  `PrecedenceProofs.WrittenRoundTrip`. Which error it gives is stated by
  `InfixProofs.InfixInvalidIffUnbalanced`. Some balanced inputs spell no
  well-grouped written expression, such as "2 + + 3", "2 3" or "+ 2 3".
  Such an input may fail or may succeed. For a failure the model states
  which error it carries. For a success it does not state the value in
  general; `Examples.InfixSurplusOperand` and `Examples.InfixOperatorFirst`
  give it for two shapes.
- Operators.Apply carries no contract of its own: the operand order it
  fixes is stated by the round-trip lemmas of the three evaluators.
- The `return null` fall-through of `apply` and the final `else` of the
  infix loop: they are unreachable because operators and fragment kinds
  are closed datatypes.
- The `ClassCastException` paths: they are unreachable for the same
  reason.
- `toString` of the stack and the operator, and the `isValidSymbol` stubs
  (they always return true and are never called).
- `Operand(double)` and `getValue`: values are trees, and the literal text
  of a number is kept instead of its parsed double.
- Java's mutable stacks and shared references: each call that changes a
  stack returns the new stack. `ReverseStack` is the one method; it
  returns the emptied input stack as a second result.
