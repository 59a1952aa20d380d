/** Failure-compatible Option and Result values used across the model. */
module Wrappers {

  datatype Option<+T> = None | Some(value: T)

  /** A parse either produces its value or stops with one error for the whole document. */
  datatype Result<+T, +E> = Success(value: T) | Failure(error: E)
}
