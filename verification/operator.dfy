/**
  The six binary operators, their precedence/associativity table, and the
  abstract operand values they build.
 */
module Operators {
  import opened Results

  /** One constructor per operator the Operator constructor accepts. */
  datatype Operator =
    | Exponentiation
    | Multiplication
    | Division
    | Modulus
    | Addition
    | Subtraction

  /** The symbols the Operator constructor accepts. */
  const OperatorSymbols: set<string> := {"^", "*", "/", "%", "+", "-"}

  /** getSymbol: the one-character symbol the operator was built from
      (SymbolRoundTrip). */
  function Symbol(o: Operator): (r: string)
    ensures |r| == 1 && r in OperatorSymbols
  {
    match o
    case Exponentiation => "^"
    case Multiplication => "*"
    case Division => "/"
    case Modulus => "%"
    case Addition => "+"
    case Subtraction => "-"
  }

  /** Precedence rank: 1 binds tightest, 3 loosest. */
  function Precedence(o: Operator): (rank: int)
    ensures 1 <= rank <= 3
    ensures rank == 1 <==> o == Exponentiation
    ensures rank == 3 <==> o == Addition || o == Subtraction
  {
    match o
    case Exponentiation => 1
    case Multiplication => 2
    case Division => 2
    case Modulus => 2
    case Addition => 3
    case Subtraction => 3
  }

  /** isLeftAssociative: every operator except exponentiation. */
  function IsLeftAssociative(o: Operator): (left: bool)
    ensures left <==> Precedence(o) != 1
  {
    match o
    case Exponentiation => false
    case Multiplication => true
    case Division => true
    case Modulus => true
    case Addition => true
    case Subtraction => true
  }

  /**
    The Operator constructor: `None` (a null string) and every string other
    than the six symbols are refused with IllegalArgumentException; an
    accepted operator reports exactly the string it was built from.
   */
  function NewOperator(symbol: Option<string>): (r: Result<Operator>)
    ensures r.Ok? <==> symbol.Some? && symbol.value in OperatorSymbols
    ensures r.Err? ==> r.error == IllegalArgument
    ensures r.Ok? ==> Symbol(r.value) == symbol.value
  {
    if symbol.None? then Err(IllegalArgument)
    else if symbol.value == "^" then Ok(Exponentiation)
    else if symbol.value == "*" then Ok(Multiplication)
    else if symbol.value == "/" then Ok(Division)
    else if symbol.value == "%" then Ok(Modulus)
    else if symbol.value == "+" then Ok(Addition)
    else if symbol.value == "-" then Ok(Subtraction)
    else Err(IllegalArgument)
  }

  /** Building an operator from its own symbol gives it back, so the symbol
      identifies the operator. */
  lemma SymbolRoundTrip(o: Operator)
    ensures NewOperator(Some(Symbol(o))) == Ok(o)
  {
  }

  lemma SymbolInjective(a: Operator, b: Operator)
    ensures Symbol(a) == Symbol(b) ==> a == b
  {
    SymbolRoundTrip(a);
    SymbolRoundTrip(b);
  }

  /** The operator table, symbol by symbol. */
  lemma Table()
    ensures NewOperator(Some("^")) == Ok(Exponentiation)
    ensures Precedence(Exponentiation) == 1 && !IsLeftAssociative(Exponentiation)
    ensures NewOperator(Some("*")) == Ok(Multiplication)
    ensures Precedence(Multiplication) == 2 && IsLeftAssociative(Multiplication)
    ensures NewOperator(Some("/")) == Ok(Division)
    ensures Precedence(Division) == 2 && IsLeftAssociative(Division)
    ensures NewOperator(Some("%")) == Ok(Modulus)
    ensures Precedence(Modulus) == 2 && IsLeftAssociative(Modulus)
    ensures NewOperator(Some("+")) == Ok(Addition)
    ensures Precedence(Addition) == 3 && IsLeftAssociative(Addition)
    ensures NewOperator(Some("-")) == Ok(Subtraction)
    ensures Precedence(Subtraction) == 3 && IsLeftAssociative(Subtraction)
  {
  }

  /**
    compareTo: positive when `o` binds tighter than `that`, zero when their
    ranks are equal, negative when `that` binds tighter.
   */
  function CompareTo(o: Operator, that: Operator): (d: int)
    ensures d > 0 <==> Precedence(o) < Precedence(that)
    ensures d == 0 <==> Precedence(o) == Precedence(that)
    ensures d < 0 <==> Precedence(that) < Precedence(o)
  {
    Precedence(that) - Precedence(o)
  }

  lemma CompareToAntisymmetric(a: Operator, b: Operator)
    ensures CompareTo(a, b) == -CompareTo(b, a)
  {
  }

  /**
    The abstract value an operand holds: the literal it was read from, or
    the application of an operator to a left and a right value. Replaces
    the double-precision arithmetic of `apply`.
   */
  datatype Value =
    | Number(literal: string)
    | Node(op: Operator, left: Value, right: Value)

  /** apply: `left` is placed left of the operator, `right` right of it. */
  function Apply(o: Operator, left: Value, right: Value): Value {
    Node(o, left, right)
  }
}
