/** Failure-carrying values used across the model in place of Python exceptions. */
module Wrappers {

  datatype Option<+T> = None | Some(value: T)

  datatype Result<+R, +E> = Success(value: R) | Failure(error: E)

  /** The outcome of a Python statement that returns nothing but may raise. */
  datatype Outcome<+E> = Pass | Fail(error: E)
}
