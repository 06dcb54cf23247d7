/** Optional values and failure-carrying results, used where the PHP code
    relies on an array key being set or on an early `return`. */
module Wrappers {

  /** A value that may be absent, like an unset key of a PHP array. */
  datatype Option<+T> = None | Some(value: T)

  /** Either a computed value or the error that stopped the computation. */
  datatype Result<+R, +E> = Success(value: R) | Failure(error: E)
}
