/** Failure-carrying result types used throughout the model. */
module Wrappers {

  datatype Option<+T> = None | Some(value: T)

  datatype Result<+R, +E> = Success(value: R) | Failure(error: E)

  /** The outcome of a check that has no value of its own, only an error. */
  datatype Outcome<+E> = Pass | Fail(error: E)
}
