/** Failure values shared by the model. The source panics on each of these
    conditions; the model returns them instead. */
module Outcomes {

  /** The conditions under which the source gives up. */
  datatype Error =
    | StackUnderflow        // a pop found the operand stack empty
    | TooManyOperands       // parsing ended with more than one node on the stack
    | InvalidOperatorToken  // a character that is neither a variable nor an operator
    | UnsupportedOperator   // `!` reached the constant evaluator's `evaluate`
    | UnboundVariable       // the set evaluator met a variable that has no set
    | ArityMismatch         // the number of sets differs from the number of variables
    | EmptyFormula          // the set evaluator was given the empty formula

  datatype Option<+T> = None | Some(value: T)

  datatype Result<+T> = Ok(value: T) | Err(error: Error)
}
