/** Failure-carrying results used where the source raises or may find nothing. */
module Wrappers {

  datatype Option<+T> = None | Some(value: T)

  /** The value of an operation, or the error the source raises instead. */
  datatype Result<+T, +E> = Success(value: T) | Failure(error: E)

  /** The outcome of an operation that returns nothing but may raise. */
  datatype Outcome<+E> = Pass | Fail(error: E)
}
