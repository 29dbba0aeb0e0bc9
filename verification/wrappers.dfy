/** Optional values and results with an error, as returned by the models of lookups and strategies. */
module Wrappers {

  /** PHP's `null` or a value. */
  datatype Option<T> = None | Some(value: T)

  /** A value, or the error that PHP would raise instead of returning one. */
  datatype Result<T, E> = Success(value: T) | Failure(error: E)
}
