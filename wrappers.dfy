/** Failure-compatible results shared by every stage of the pipeline. */
module Wrappers {

  datatype Option<+T> = None | Some(value: T)

  /** `Ok` carries a value, `Err` the failure that aborted the stage. */
  datatype Result<+T, +E> = Ok(value: T) | Err(error: E) {

    predicate IsFailure() {
      Err?
    }

    function PropagateFailure<U>(): Result<U, E>
      requires Err?
    {
      Err(error)
    }

    function Extract(): T
      requires Ok?
    {
      value
    }
  }
}
