/** Optional values and success-or-error outcomes used across the model. */
module Wrappers {
  /** A value that may be absent (JavaScript `undefined`/`null` where a value was expected). */
  datatype Option<+T> = None | Some(value: T)

  /** The outcome of an operation that can raise an error. */
  datatype Result<+T, +E> = Success(value: T) | Failure(error: E)
}
