/** `Option` and `Result`, used throughout the model. */
module Wrappers {

  /** A value that may be absent, standing in for JavaScript's `null`/`undefined`. */
  datatype Option<+T> = None | Some(value: T)

  /** The outcome of an operation that either returns a value or throws an error. */
  datatype Result<+T, +E> = Success(value: T) | Failure(error: E)
}
