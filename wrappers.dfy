/** The Option and Result types shared by the model. */
module Wrappers {

  /** A value that may be absent (a JavaScript `undefined`/`null` property). */
  datatype Option<+T> = None | Some(value: T)

  /** The value of an operation that may throw. */
  datatype Result<+T, +E> = Success(value: T) | Failure(error: E)
}
