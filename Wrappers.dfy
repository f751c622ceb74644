/** Failure-compatible wrappers used throughout the model. */
module Wrappers {

  /** A value that may be missing (pandas NaN, an empty result). */
  datatype Option<+T> = None | Some(value: T)

  /** The outcome of an operation that the source lets raise an exception. */
  datatype Result<+T, +E> = Success(value: T) | Failure(error: E)
}
