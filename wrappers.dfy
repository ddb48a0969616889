/** Go's `(value, error)` returns, as values. */
module Wrappers {

  /** An optional value; `None` stands for Go's `nil` error. */
  datatype Option<+T> = None | Some(value: T)

  /** Either a value or an error (the value is `nil` whenever the error is not). */
  datatype Result<+T, +E> = Success(value: T) | Failure(error: E)
}
