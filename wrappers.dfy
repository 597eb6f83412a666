/** Failure-compatible wrappers shared by every module of the model. */
module Wrappers {

  /** A value that may be absent: JavaScript's `undefined`/`null` slots. */
  datatype Option<+T> = None | Some(value: T)

  /** The outcome of an operation that may throw; `error` is the message. */
  datatype Result<+T> = Success(value: T) | Failure(error: string)

  /** The outcome of an operation whose only result is success or an error. */
  datatype Outcome = Pass | Fail(error: string)
}
