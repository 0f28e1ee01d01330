/** Option and Result, the failure-carrying values used throughout the model. */
module Wrappers {

  datatype Option<+T> = None | Some(value: T)

  /** A computation that either succeeds with a value or fails with an error
      (Python's raised exception). */
  datatype Result<+R, +E> = Success(value: R) | Failure(error: E)
}
