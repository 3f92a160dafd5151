/** Failure-compatible result type and the error kinds of the formula pipeline. */
module Wrappers {

  datatype Option<+T> = None | Some(value: T)

  /** The ways a stage of the pipeline can fail; each stands for one exception of the source. */
  datatype Error =
    | IllegalCharacter   // a character outside the legal alphabet
    | EmptyFormula       // the origin string is empty
    | PriorityUndefined  // a priority lookup found no entry and was compared with a number
    | StackUnderflow     // a pop from an empty stack
    | MissingValue       // a variable has no value in the assignment
    | TooManyVariables   // more than ten distinct variables
    | SyntaxError        // evaluation ended with an empty operand stack

  datatype Result<+T> = Success(value: T) | Failure(error: Error) {

    predicate IsFailure() {
      Failure?
    }

    function PropagateFailure<U>(): Result<U>
      requires Failure?
    {
      Failure(error)
    }

    function Extract(): T
      requires Success?
    {
      value
    }
  }
}
