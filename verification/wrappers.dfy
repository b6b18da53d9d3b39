/** Failure-carrying result types shared by the model. */
module Wrappers {

  /** A value that may be absent (a SQL row that was not found, a date that underflowed). */
  datatype Option<T> = None | Some(value: T)

  /** The outcome of a request handler: a value, or the error the handler raises. */
  datatype Result<T, E> = Ok(value: T) | Err(error: E)
}
