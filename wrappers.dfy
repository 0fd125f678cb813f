/** Failure-compatible wrappers used by the pipeline model. */
module Wrappers {

  /** A value that may be absent; a missing price (NaN in the data frame) is None. */
  datatype Option<+T> = None | Some(value: T)

  /** The outcome of an operation that the source can abort with an exception. */
  datatype Result<+R, +E> = Success(value: R) | Failure(error: E)
}
