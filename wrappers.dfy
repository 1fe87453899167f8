/** Small failure-compatible wrappers used by the converter model. */
module Wrappers {

  /** The conventional Some/None datatype, used where PHP has an optional value. */
  datatype Option<+T> = None | Some(value: T)

  /** A value or an error that the PHP code would raise. */
  datatype Result<+R, +E> = Success(value: R) | Failure(error: E)
}
