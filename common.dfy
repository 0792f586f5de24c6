/** Failure-compatible wrappers shared by every module of the model. */
module Wrappers {

  /** A value that may be absent: JavaScript's `null`/`undefined`, a header
      that is not present, a URL that could not be parsed. */
  datatype Option<T> = None | Some(value: T)

  /** The outcome of an operation that either yields a value or throws an
      `Error` whose `message` is kept as a string. */
  datatype Result<T> = Ok(value: T) | Err(message: string)
}
