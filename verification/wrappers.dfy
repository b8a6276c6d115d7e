/** Failure-compatible Option and Result types used by the whole model. */
module Wrappers {

  datatype Option<+T> = None | Some(value: T)

  /** Success or Failure; usable with `:-`, like an exception that aborts the run. */
  datatype Result<+R, +E> = Success(value: R) | Failure(error: E) {
    predicate IsFailure() {
      Failure?
    }

    function PropagateFailure<U>(): Result<U, E>
      requires Failure?
    {
      Failure(error)
    }

    function Extract(): R
      requires Success?
    {
      value
    }
  }
}
