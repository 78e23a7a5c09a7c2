/** Failure-carrying wrappers shared by the validator and the request handlers. */
module Wrappers {

  /** A value that may be missing. */
  datatype Option<+T> = None | Some(value: T)

  /** Either a computed value or an error value. */
  datatype Result<+R, +E> = Success(value: R) | Failure(error: E)
}
