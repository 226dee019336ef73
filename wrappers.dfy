/** The outcome of a call that may throw: the thrown error becomes a `Failure`. */
module Wrappers {
  datatype Result<+T, +E> = Success(value: T) | Failure(error: E)
}
