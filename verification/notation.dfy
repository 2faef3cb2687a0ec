/**
  Printers from values back to fragment sequences, one per notation. They
  are the reference the evaluators are proved against.
 */
module Notation {
  import opened Results
  import opened BoundedStack
  import opened Operators
  import opened Fragments
  import opened ExpressionEvaluator

  /** Operands first, operator last. */
  function PostfixOf(v: Value): seq<Fragment> {
    match v
    case Number(_) => [Operand(v)]
    case Node(o, l, r) => PostfixOf(l) + PostfixOf(r) + [Operation(o)]
  }

  /** Operator first, operands after. */
  function PrefixOf(v: Value): seq<Fragment> {
    match v
    case Number(_) => [Operand(v)]
    case Node(o, l, r) => [Operation(o)] + PrefixOf(l) + PrefixOf(r)
  }

  /**
    An infix expression as written: numbers, operators between their
    operands, and bracket groups wherever the writer put them, redundant
    ones included.
   */
  datatype Written =
    | Atom(literal: string)
    | Binary(op: Operator, left: Written, right: Written)
    | Group(inner: Written)

  /** The fragments of a written expression, first to last. */
  function Spelling(w: Written): (r: seq<Fragment>)
    ensures |PostfixOf(Meaning(w))| <= |r|
  {
    match w
    case Atom(s) => [Operand(Number(s))]
    case Binary(o, l, r) => Spelling(l) + [Operation(o)] + Spelling(r)
    case Group(inner) => [OpenBracket] + Spelling(inner) + [CloseBracket]
  }

  /** The expression tree a written expression stands for, reading each
      operator as applying to its two neighbouring operands. */
  function Meaning(w: Written): Value {
    match w
    case Atom(s) => Number(s)
    case Binary(o, l, r) => Node(o, Meaning(l), Meaning(r))
    case Group(inner) => Meaning(inner)
  }

  /**
    Whether the brackets written are enough for that reading: an
    application written as the left operand of `o` without brackets binds
    tighter than `o`, or as tight and groups to the left; one written as
    the right operand of `o` without brackets binds tighter than `o`, or
    as tight while `o` groups to the right. Extra brackets are always
    allowed.
   */
  predicate WellGrouped(w: Written) {
    match w
    case Atom(_) => true
    case Binary(o, l, r) =>
      && WellGrouped(l) && WellGrouped(r)
      && (l.Binary? ==> Yields(l.op, o))
      && (r.Binary? ==> !Yields(o, r.op))
    case Group(inner) => WellGrouped(inner)
  }

  /** A left operand needs brackets when it is an application that binds
      looser than `o`, or as tight while `o` groups to the right. */
  predicate LeftNeedsBrackets(o: Operator, l: Value) {
    l.Node? && (Precedence(l.op) > Precedence(o) || (Precedence(l.op) == Precedence(o) && !IsLeftAssociative(o)))
  }

  /** A right operand needs brackets when it is an application that binds
      looser than `o`, or as tight while `o` groups to the left. */
  predicate RightNeedsBrackets(o: Operator, r: Value) {
    r.Node? && (Precedence(r.op) > Precedence(o) || (Precedence(r.op) == Precedence(o) && IsLeftAssociative(o)))
  }

  function GroupIf(w: Written, needed: bool): Written {
    if needed then Group(w) else w
  }

  /** `v` written with brackets only where precedence and associativity
      demand them. */
  function Minimal(v: Value): (w: Written)
    ensures Meaning(w) == v
    ensures w.Binary? <==> v.Node?
    ensures w.Binary? ==> w.op == v.op
  {
    match v
    case Number(s) => Atom(s)
    case Node(o, l, r) => Binary(o, GroupIf(Minimal(l), LeftNeedsBrackets(o, l)), GroupIf(Minimal(r), RightNeedsBrackets(o, r)))
  }

  /** `v` written with every application bracketed. */
  function Full(v: Value): (w: Written)
    ensures Meaning(w) == v
    ensures !w.Binary?
  {
    match v
    case Number(s) => Atom(s)
    case Node(o, l, r) => Group(Binary(o, Full(l), Full(r)))
  }

  /** Operator between its operands, with brackets only where precedence
      and associativity demand them. */
  function InfixOf(v: Value): seq<Fragment> {
    Spelling(Minimal(v))
  }

  /** Operator between its operands, every application bracketed. */
  function BracketedInfixOf(v: Value): seq<Fragment> {
    Spelling(Full(v))
  }

  /** The fragment stack the tokenizer builds for a sequence of fragments:
      first at the bottom, one slot per fragment (TokenizeIsStackOf). */
  function StackOf(xs: seq<Fragment>): (s: Stack<Fragment>)
    ensures s.Valid() && s.elements == xs
    ensures xs != [] ==> Size(s) == |xs|
  {
    Stack(xs, if |xs| == 0 then DefaultSize else |xs|)
  }

  /** Tokens that classify one by one as `xs` tokenize to StackOf(xs). */
  lemma TokenizeIsStackOf(tokens: seq<string>, isNumber: NumberSyntax, xs: seq<Fragment>)
    requires |xs| == |tokens|
    requires forall j :: 0 <= j < |tokens| ==> Classify(tokens[j], isNumber) == Ok(xs[j])
    ensures Tokenize(tokens, isNumber) == Ok(StackOf(xs))
  {
    var r := Tokenize(tokens, isNumber);
    assert r.Ok?;
    assert r.value.elements == xs by {
      forall j | 0 <= j < |xs| ensures r.value.elements[j] == xs[j] {
        assert Classify(tokens[j], isNumber) == Ok(xs[j]);
      }
    }
  }
}
