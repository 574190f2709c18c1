/** Failure-carrying result types shared by the codec and the transaction model. */
module Wrappers {

  /** A value that may be absent (a JavaScript `undefined` option). */
  datatype Option<+T> = None | Some(value: T)

  /** The outcome of an operation that the source lets throw: the value, or the error it threw. */
  datatype Result<+T, +E> = Ok(value: T) | Err(error: E)
}
