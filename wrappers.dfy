/** A Go `(value, error)` return pair: exactly one of the two is meaningful. */
module Wrappers {
  datatype Result<+T, +E> = Success(value: T) | Failure(error: E)
}
