/** The Option and Result datatypes used across the model. */
module Wrappers {

  /** A value that may be absent (Kotlin's nullable types). */
  datatype Option<+T> = None | Some(value: T)

  /** A computation that either yields a value or fails (a thrown exception). */
  datatype Result<+R, +E> = Success(value: R) | Failure(error: E)
}
