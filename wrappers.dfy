/** Success/Failure results, used in place of Go's `(value, error)` pairs. */
module Wrappers {

  datatype Result<+T, +E> = Success(value: T) | Failure(error: E)
}
