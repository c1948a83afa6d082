/** Optional values and error returns shared by the model's modules. */
module Wrappers {

  /** A value that may be missing: JavaScript's `null` / `undefined`, or SQL `NULL`. */
  datatype Option<+T> = None | Some(value: T)

  /** The outcome of an operation that can fail: a value, or the error it throws. */
  datatype Result<+T, +E> = Success(value: T) | Failure(error: E)
}
