/** Failure-carrying wrappers shared by every module of the model. */
module Wrappers {

  /** An optional value: a record that may be absent, a cache slot that may be empty. */
  datatype Option<+T> = None | Some(value: T)

  /** The outcome of an operation that either returns a value or throws an error. */
  datatype Result<+R, +E> = Success(value: R) | Failure(error: E)
}
