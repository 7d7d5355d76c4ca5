/** Failure-compatible wrappers shared by the valuation modules. */
module Wrappers {

  /** A value that may be absent (Python's `None`). */
  datatype Option<+T> = None | Some(value: T)

  /** The outcome of a computation that can fail with an error of type E. */
  datatype Result<+T, +E> = Success(value: T) | Failure(error: E)
}
