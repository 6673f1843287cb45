/** Small failure-carrying datatypes shared by the other modules. */
module Wrappers {

  /** A value that may be absent: the model's stand-in for a C pointer that may be NULL. */
  datatype Option<+T> = None | Some(value: T)

  /** The result of a computation that either succeeds or reports an error value. */
  datatype Result<+T, +E> = Success(value: T) | Failure(error: E)
}
