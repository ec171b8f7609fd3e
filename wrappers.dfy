/** Failure-compatible result types shared by the other modules. */
module Wrappers {

  /** A value that may be absent (JavaScript's `null` or `undefined`). */
  datatype Option<+T> = None | Some(value: T)

  /** The value of an operation, or the error it raised. */
  datatype Result<+R, +E> = Success(value: R) | Failure(error: E)

  /** An operation that returns nothing but may fail. */
  datatype Outcome<+E> = Pass | Fail(error: E)
}
