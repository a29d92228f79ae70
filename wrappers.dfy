/** Failure-carrying values used across the model. */
module Wrappers {

  /** An optional value: a missing request field, a rejected conversion, no chart. */
  datatype Option<+T> = None | Some(value: T)

  /** The outcome of an operation that can fail with an error value. */
  datatype Result<+R, +E> = Success(value: R) | Failure(error: E)
}
