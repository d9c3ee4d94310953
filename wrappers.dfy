/** An optional value and a success-or-error result. */
module Wrappers {

  /** A value that may be absent (Python's `None`). */
  datatype Option<+T> = None | Some(value: T)

  /** The outcome of an operation that either succeeds with a value or fails
      with an error (the source raises an exception on failure). */
  datatype Result<+T, +E> = Success(value: T) | Failure(error: E)
}
