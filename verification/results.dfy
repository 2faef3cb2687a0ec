/** Failure-compatible wrappers shared by the whole engine. */
module Results {

  /** A possibly absent value; `None` stands for a Java `null` reference. */
  datatype Option<+T> = None | Some(value: T)

  /** The three exceptional outcomes the engine can produce. */
  datatype Error =
    | InvalidExpression   // the evaluator's own InvalidExpressionException
    | EmptyStack          // NoSuchElementException thrown by Stack.pop / Stack.peek
    | IllegalArgument     // IllegalArgumentException thrown by a fragment constructor

  /** Either a value or the error that was thrown instead. */
  datatype Result<+T> = Ok(value: T) | Err(error: Error) {

    predicate IsFailure() {
      Err?
    }

    function PropagateFailure<U>(): Result<U>
      requires Err?
    {
      Err(error)
    }

    function Extract(): T
      requires Ok?
    {
      value
    }
  }
}
