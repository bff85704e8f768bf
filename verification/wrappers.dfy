/** Failure-compatible wrappers shared by every module of the calculator core. */
module Wrappers {

  /** A value that may be absent (Python's `None`). */
  datatype Option<+T> = None | Some(value: T)

  /** A computation that either produces a value or raises an error. */
  datatype Result<+T, +E> = Success(value: T) | Failure(error: E)

  /** A check that either passes or fails with an error (a validator that raises). */
  datatype Outcome<+E> = Pass | Fail(error: E)
}
