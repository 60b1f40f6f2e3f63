/** Failure-compatible result types shared by the planner modules. */
module Wrappers {

  /** A value that may be missing, as when a lookup finds nothing. */
  datatype Option<+T> = None | Some(value: T)

  /** Either a value or the reason no value could be produced. */
  datatype Result<+T, +E> = Ok(value: T) | Err(error: E) {

    predicate IsFailure() {
      Err?
    }

    function PropagateFailure<U>(): Result<U, E>
      requires Err?
    {
      Err(error)
    }

    function Extract(): T
      requires Ok?
    {
      value
    }
  }
}
