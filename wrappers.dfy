/** Failure-compatible wrappers shared by every module of the model. */
module Wrappers {

  /** An optional value: `None` stands for JavaScript's `undefined`/`null`. */
  datatype Option<+T> = None | Some(value: T)

  /** The outcome of a handler that returns nothing on success (HTTP 204) or throws. */
  datatype Outcome<+E> = Pass | Fail(error: E)

  /** The outcome of a handler that returns a body on success or throws. */
  datatype Result<+T, +E> = Success(value: T) | Failure(error: E)
}
