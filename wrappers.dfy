/** Failure-carrying results used throughout the model. */
module Wrappers {

  /** A value that may be absent (JavaScript's `undefined` / `false` lookups). */
  datatype Option<+T> = None | Some(value: T)

  /** The value of a call that either returns or throws. */
  datatype Result<+T, +E> = Success(value: T) | Failure(error: E)

  /** The value of a call that returns nothing or throws. */
  datatype Outcome<+E> = Pass | Fail(error: E)
}
