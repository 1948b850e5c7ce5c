/** Results of operations that the program reports by raising. */
module Outcomes {

  datatype Option<+T> = None | Some(value: T)

  /** A value, or the error that was raised instead. */
  datatype Result<+T, +E> = Ok(value: T) | Err(error: E) {

    predicate IsFailure() {
      Err?
    }

    function PropagateFailure<U>(): Result<U, E>
      requires Err?
    {
      Err(error)
    }

    function Extract(): T
      requires Ok?
    {
      value
    }
  }
}
