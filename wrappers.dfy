/** Failure-compatible result types: Python's `None` and raised exceptions
    become explicit values. */
module Wrappers {

  datatype Option<+T> = None | Some(value: T)

  /** The outcome of an operation that either returns a value or raises an
      error carrying a payload (a `ValidationError` and its message list). */
  datatype Result<+T, +E> = Success(value: T) | Failure(error: E)
}
