/** Option and Result: the failure-carrying values the grid operations return. */
module Wrappers {

  /** A value that may be absent. For a grid sample, None means "masked". */
  datatype Option<+T> = None | Some(value: T)

  /** The outcome of an operation that can raise an error. */
  datatype Result<+R, +E> = Success(value: R) | Failure(error: E)
}
