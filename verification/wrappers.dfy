/** Failure-compatible wrappers shared by the whole model. */
module Wrappers {

  /** A value that may be absent; stands in for Kotlin's nullable types. */
  datatype Option<+T> = None | Some(value: T)

  /** The outcome of a call that may throw: the value, or the throwable. */
  datatype Result<+R, +E> = Success(value: R) | Failure(error: E)
}
