/** Failure-compatible result types shared by the modules of this project. */
module Wrappers {

  /** A value, or none. */
  datatype Option<T> = None | Some(value: T)

  /** The value an operation computes, or the error that ended it. */
  datatype Result<T, E> = Success(value: T) | Failure(error: E)
}
