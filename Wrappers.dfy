/** Failure-carrying wrappers used across the model. */
module Wrappers {

  /** A value that may be absent: Java's nullable reference. */
  datatype Option<T> = None | Some(value: T)

  /** The outcome of an operation that can fail with an error of type E. */
  datatype Result<T, E> = Success(value: T) | Failure(error: E)
}
