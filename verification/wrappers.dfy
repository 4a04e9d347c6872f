/** Option and Result used by the store model. */
module Wrappers {

  /** A value that may be absent: Go's nil pointer or a SQL NULL column. */
  datatype Option<+T> = None | Some(value: T)

  /** Either a value or the error the store reported instead. */
  datatype Result<+T, +E> = Success(value: T) | Failure(error: E)
}
