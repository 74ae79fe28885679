/** Failure-carrying results shared by the whole model. */
module Wrappers {

  datatype Option<+T> = None | Some(value: T)

  /** The outcome of an operation that the Python code may abort by raising. */
  datatype Result<+R, +E> = Success(value: R) | Failure(error: E)
}
