/** Failure-carrying result types shared by the maze modules. */
module Wrappers {

  /** A value that may be absent: Go's nil `Spot`, or a character that names no spot. */
  datatype Option<+T> = None | Some(value: T)

  /** Either a value or the error that stopped its computation. */
  datatype Result<+T, +E> = Success(value: T) | Failure(error: E)

  /** Go's `error` return: nil (`Pass`) or an error value. */
  datatype Outcome<+E> = Pass | Fail(error: E)
}
