/** Optional and fallible values, used wherever the application works with a
    nullable column, a value that may fail to parse, or a request that may fail. */
module Wrappers {

  /** A value that may be absent (`null` / `undefined` in the application). */
  datatype Option<+T> = None | Some(value: T)

  /** The outcome of a request that either succeeds with a value or fails. */
  datatype Result<+R, +E> = Success(value: R) | Failure(error: E)
}
