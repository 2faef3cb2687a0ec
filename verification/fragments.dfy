/**
  The four kinds of expression fragment and the constructors that decide,
  for one token, whether it is an operand or a bracket.
 */
module Fragments {
  import opened Results
  import opened Operators

  datatype Fragment =
    | Operand(value: Value)
    | Operation(op: Operator)
    | OpenBracket
    | CloseBracket

  /** The tokens reserved for operators and brackets. */
  const OpenSymbols: set<string> := {"(", "["}
  const CloseSymbols: set<string> := {")", "]"}

  /** What is known of the external number parser: it refuses the empty
      string and every operator and bracket symbol. */
  predicate RejectsSymbols(isNumber: string -> bool) {
    && !isNumber("")
    && !isNumber("^") && !isNumber("*") && !isNumber("/")
    && !isNumber("%") && !isNumber("+") && !isNumber("-")
    && !isNumber("(") && !isNumber("[") && !isNumber(")") && !isNumber("]")
  }

  /** The operand recogniser, left abstract: which strings parse as a number. */
  type NumberSyntax = isNumber: string -> bool | RejectsSymbols(isNumber)
    witness (t: string) => false

  /** The Operand constructor from a string: refuses null and anything the
      number parser refuses. */
  function NewOperand(symbol: Option<string>, isNumber: NumberSyntax): (r: Result<Fragment>)
    ensures r.Ok? <==> symbol.Some? && isNumber(symbol.value)
    ensures r.Ok? ==> r.value == Operand(Number(symbol.value))
    ensures r.Err? ==> r.error == IllegalArgument
  {
    match symbol
    case None => Err(IllegalArgument)
    case Some(s) => if isNumber(s) then Ok(Operand(Number(s))) else Err(IllegalArgument)
  }

  /** The OpenBracket constructor: accepts exactly "(" and "[". */
  function NewOpenBracket(symbol: Option<string>): (r: Result<Fragment>)
    ensures r.Ok? <==> symbol == Some("(") || symbol == Some("[")
    ensures r.Ok? ==> r.value == OpenBracket
    ensures r.Err? ==> r.error == IllegalArgument
  {
    if symbol.None? then Err(IllegalArgument)
    else if !(symbol.value == "(" || symbol.value == "[") then Err(IllegalArgument)
    else Ok(OpenBracket)
  }

  /** The CloseBracket constructor: accepts exactly ")" and "]". */
  function NewCloseBracket(symbol: Option<string>): (r: Result<Fragment>)
    ensures r.Ok? <==> symbol == Some(")") || symbol == Some("]")
    ensures r.Ok? ==> r.value == CloseBracket
    ensures r.Err? ==> r.error == IllegalArgument
  {
    if symbol.None? then Err(IllegalArgument)
    else if !(symbol.value == ")" || symbol.value == "]") then Err(IllegalArgument)
    else Ok(CloseBracket)
  }

  /** No string is accepted by two of the four constructors. */
  lemma KindsAreDisjoint(symbol: Option<string>, isNumber: NumberSyntax)
    ensures NewOperator(symbol).Ok? ==> NewOperand(symbol, isNumber).Err?
    ensures NewOperator(symbol).Ok? ==> NewOpenBracket(symbol).Err? && NewCloseBracket(symbol).Err?
    ensures NewOperand(symbol, isNumber).Ok? ==> NewOpenBracket(symbol).Err? && NewCloseBracket(symbol).Err?
    ensures NewOpenBracket(symbol).Ok? ==> NewCloseBracket(symbol).Err?
  {
  }
}
