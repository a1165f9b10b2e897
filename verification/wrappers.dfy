/** Option and Result values standing in for `undefined` and for thrown
    application errors. */
module Wrappers {

  /** A value that may be absent, as `T | undefined`. */
  datatype Option<+T> = None | Some(value: T)

  /** Either the value an operation produced or the error it raised. */
  datatype Result<+T, +E> = Success(value: T) | Failure(error: E)
}
