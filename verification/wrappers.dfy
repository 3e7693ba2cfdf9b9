/** Failure-carrying datatypes used across the model. */
module Wrappers {

  /** A value that may be absent, as Go's `(value, ok)` pairs are. */
  datatype Option<+T> = None | Some(value: T)

  /** A value or the error that prevented computing it, as Go's `(value, error)` pairs are. */
  datatype Result<+R, +E> = Success(value: R) | Failure(error: E)
}
