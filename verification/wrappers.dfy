/** Optional and failure-carrying values used by the store model. */
module Wrappers {

  /** A nullable SQL value: `None` is NULL. */
  datatype Option<+T> = None | Some(value: T)

  /** Either the value an operation produced or the error it raised. */
  datatype Result<+R, +E> = Success(value: R) | Failure(error: E)
}
