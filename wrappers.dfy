/** The Option, Result and Outcome datatypes used across the model. */
module Wrappers {

  /** A value that may be absent (a Java reference that may be null, an empty Optional). */
  datatype Option<+T> = None | Some(value: T)

  /** The value of a call, or the exception it throws. */
  datatype Result<+R, +E> = Success(value: R) | Failure(error: E)

  /** The outcome of a check that either passes or fails with an error. */
  datatype Outcome<+E> = Pass | Fail(error: E)
}
