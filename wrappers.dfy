/** Optional values and error-carrying results used by the note store model. */
module Wrappers {

  /** A value that may be absent (`undefined` in the original). */
  datatype Option<+T> = None | Some(value: T)

  /** The outcome of an operation that can be rejected. */
  datatype Result<+R, +E> = Success(value: R) | Failure(error: E)
}
