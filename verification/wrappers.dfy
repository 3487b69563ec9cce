/** Failure-carrying wrappers used throughout the model. */
module Wrappers {

  /** A value that may be absent; `None` stands for JavaScript's `null`/`undefined`. */
  datatype Option<+T> = None | Some(value: T)

  /** The outcome of an operation that may throw: a new value, or the error it raised. */
  datatype Result<+T, +E> = Success(value: T) | Failure(error: E)
}
