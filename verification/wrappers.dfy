/** Failure-carrying result types used across the catalog model. */
module Wrappers {

  /** An optional value: the result of a parser that may reject its input. */
  datatype Option<+T> = None | Some(value: T)

  /** A value or the error that prevented it. */
  datatype Result<+T, +E> = Ok(value: T) | Err(error: E)
}
