/** Failure-carrying values shared by the modules of this model. */
module Wrappers {

  /** A value that may be absent (a JavaScript `null`/`undefined`). */
  datatype Option<+T> = None | Some(value: T)

  /** The outcome of a step that may throw: its value, or the thrown message. */
  datatype Result<+T> = Success(value: T) | Failure(error: string)
}
