/** Optional values and results with an error, shared by the whole model. */
module Wrappers {

  /** A value that may be absent: a missing file, a regular expression that did not match. */
  datatype Option<+T> = None | Some(value: T)

  /** Either a value or the error that a Python exception would carry. */
  datatype Result<+R, +E> = Success(value: R) | Failure(error: E)
}
