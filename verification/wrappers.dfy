/** Go's nil pointer and `(value, error)` pair, as datatypes shared by every module of the model. */
module Wrappers {

  /** A value that may be absent; stands for a Go pointer that may be nil. */
  datatype Option<+T> = None | Some(value: T)

  /** Either a value or an error; stands for Go's `(value, error)` return pair. */
  datatype Result<+T, +E> = Success(value: T) | Failure(error: E)
}
