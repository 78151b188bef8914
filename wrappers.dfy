/** Optional values and error results, shared by every module of the matcher model. */
module Wrappers {

  /** A value that may be absent: a null cell, a missing column, a SKU with no number. */
  datatype Option<+T> = None | Some(value: T)

  /** The outcome of an operation that can raise an input error. */
  datatype Result<+R, +E> = Success(value: R) | Failure(error: E)
}
