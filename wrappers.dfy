/** Failure-carrying values shared by the route planner and the user controller. */
module Wrappers {

  /** A value that may be absent: the source's `null`, `undefined` and `Infinity`. */
  datatype Option<+T> = None | Some(value: T)

  /** The outcome of an operation that may throw. */
  datatype Result<+R, +E> = Success(value: R) | Failure(error: E)

  /** The outcome of an operation that only succeeds or throws. */
  datatype Outcome<+E> = Pass | Fail(error: E)
}
