/** Result and Option types used for the error paths of the file layer. */
module Wrappers {

  /** A value that may be absent. */
  datatype Option<+T> = None | Some(value: T)

  /** The outcome of an operation that can raise: either a value or an error. */
  datatype Result<+R, +E> = Success(value: R) | Failure(error: E)
}
