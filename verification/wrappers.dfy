/** Failure-compatible wrappers shared by the model. */
module Wrappers {

  /** A value that may be absent, in place of a Kotlin nullable. */
  datatype Option<+T> = None | Some(value: T)

  /** Either a computed value or the reason the computation stopped. */
  datatype Result<+T, +E> = Ok(value: T) | Err(error: E)
}
