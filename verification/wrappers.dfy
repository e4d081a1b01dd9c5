/** Optional values and typed failures, used in place of `null` and thrown errors. */
module Wrappers {

  /** A value that may be absent: the model of `T | null`. */
  datatype Option<+T> = None | Some(value: T)

  /** Either a value or the reason the computation stopped. */
  datatype Result<+R, +E> = Success(value: R) | Failure(error: E)
}
