/** Failure-carrying values shared by the other modules. */
module Wrappers {

  /** A value that may be absent, as an attribute that was never set. */
  datatype Option<+T> = None | Some(value: T)

  /** The outcome of an operation that can fail with an error of type E. */
  datatype Result<+T, +E> = Ok(value: T) | Err(error: E)
}
