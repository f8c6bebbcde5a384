/** Failure-carrying values shared by the modules of this model. */
module Wrappers {

  /** A value that may be absent (a JavaScript `null`/`undefined`/`NaN`). */
  datatype Option<+T> = None | Some(value: T)

  /** The outcome of an operation that either yields a value or throws. */
  datatype Result<+R, +E> = Success(value: R) | Failure(error: E)

  /** The outcome of an operation that yields nothing on success (`Promise<void>`). */
  datatype Outcome<+E> = Pass | Fail(error: E)
}
