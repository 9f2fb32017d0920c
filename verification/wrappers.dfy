/** Optional values and the outcomes of steps that may throw. */
module Wrappers {

  /** A value that may be absent: PHP's `NULL` where an object or string was expected. */
  datatype Option<+T> = None | Some(value: T)

  /** The outcome of a step that may throw: its value, or the exception it threw. */
  datatype Result<+R, +E> = Success(value: R) | Failure(error: E)
}
