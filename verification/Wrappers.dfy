/** Result types shared by the modules of the project. */
module Wrappers {

  /** An optional value. */
  datatype Option<+T> = None | Some(value: T)

  /** A value, or the error that kept it from being computed. */
  datatype Result<+T, +E> = Success(value: T) | Failure(error: E)
}
