/** Failure-carrying results shared by every module of the model. */
module Wrappers {

  /** A value that may be missing: JavaScript's `null` return, or a parse that failed. */
  datatype Option<+T> = None | Some(value: T)

  /** The outcome of an operation that can throw: a value, or the error it throws. */
  datatype Result<+T, +E> = Success(value: T) | Failure(error: E)
}
