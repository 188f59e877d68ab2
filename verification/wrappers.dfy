/** Optional-value and result wrappers used across the model. */
module Wrappers {

  /** An optional value: `None` stands for Go's nil slice or absent field. */
  datatype Option<+T> = None | Some(value: T)

  /** A value or an error, standing for Go's `(T, error)` return pairs. */
  datatype Result<+R, +E> = Success(value: R) | Failure(error: E)
}
