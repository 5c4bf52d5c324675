/** Failure-carrying results: JavaScript `throw` and `undefined` become values. */
module Wrappers {

  /** A value that may be absent (JavaScript's `undefined`). */
  datatype Option<+T> = None | Some(value: T)

  /** The value of a computation, or the error it threw. */
  datatype Result<+T, +E> = Success(value: T) | Failure(error: E)

  /** The outcome of a computation that returns nothing unless it throws. */
  datatype Outcome<+E> = Pass | Fail(error: E)
}
