/** Failure-carrying result types shared by every other module. */
module Wrappers {

  /** An optional value: stands in for a nullable pointer. */
  datatype Option<+T> = None | Some(value: T)

  /** A value or an error: stands in for an exception or a fatal exit. */
  datatype Result<+T, +E> = Ok(value: T) | Err(error: E)
}
