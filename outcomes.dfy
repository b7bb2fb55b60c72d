/** Failure-carrying values shared by every module of the model. */
module Outcomes {

  /** A value that may be absent, e.g. a token that does not parse. */
  datatype Option<+T> = None | Some(value: T)

  /** The outcome of an operation that either succeeds or raises. */
  datatype Result<+T, +E> = Ok(value: T) | Err(error: E)
}
