/** Option and Result values shared by the parser and the detectors. */
module Wrappers {

  /** A value that may be absent (a dropped line, an unregistered prefix). */
  datatype Option<+T> = None | Some(value: T)

  /** The outcome of a computation that may abort with an error value. */
  datatype Result<+T, +E> = Success(value: T) | Failure(error: E)
}
