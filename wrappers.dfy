/** Failure-carrying values shared by every module of the model. */
module Wrappers {

  /** An optional value (Rust's `Option`). */
  datatype Option<+T> = None | Some(value: T)

  /**
   * The outcome of a serializer call. The error carries the message of the
   * source's `SerError(String)`, its only error type.
   */
  datatype Result<+T> = Ok(value: T) | Err(error: string)
}
