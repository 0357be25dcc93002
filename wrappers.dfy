/** Failure-carrying result types shared by the codec modules. */
module Wrappers {

  datatype Option<+T> = None | Some(value: T)

  /** Either the value an operation computes or the error that stops it. */
  datatype Result<+T, +E> = Success(value: T) | Failure(error: E)
}
