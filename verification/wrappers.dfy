/** Failure-compatible result type used for the importer's error paths. */
module Wrappers {

  /** Either a value or the error that aborted the computation. */
  datatype Result<+R, +E> = Ok(value: R) | Err(error: E) {

    predicate IsFailure() {
      Err?
    }

    function PropagateFailure<U>(): Result<U, E>
      requires Err?
    {
      Err(error)
    }

    function Extract(): R
      requires Ok?
    {
      value
    }
  }
}
