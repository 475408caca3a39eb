/** Failure-carrying values shared by the other modules. */
module Wrappers {

  /** A value that may be absent. */
  datatype Option<+T> = None | Some(value: T)

  /** Either a successful value or the message of a raised error. */
  datatype Result<+R, +E> = Success(value: R) | Failure(error: E)
}
