/** Optional values and success/failure results used across the model. */
module Wrappers {

  /** A value that may be absent, as JavaScript's `undefined` is. */
  datatype Option<+T> = None | Some(value: T)

  /** The outcome of a computation that may throw. */
  datatype Result<+R, +E> = Success(value: R) | Failure(error: E)
}
