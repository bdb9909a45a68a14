/** Optional values and results with an error, as used by the lookups and the store calls. */
module Wrappers {

  /** A value that may be absent (JavaScript `null` for "not found"). */
  datatype Option<+T> = None | Some(value: T)

  /** The outcome of a call that may throw. */
  datatype Result<+R, +E> = Success(value: R) | Failure(error: E)
}
