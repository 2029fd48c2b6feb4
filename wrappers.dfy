/** Option and Result, the two wrappers the model uses for JavaScript's
    `undefined` and for the outcome of a server call. */
module Wrappers {

  /** A value that may be missing; `None` stands for JavaScript's `undefined`. */
  datatype Option<+T> = None | Some(value: T)

  /** The outcome of an asynchronous server call: the awaited value, or the
      rejection's `error.body.message`. */
  datatype Result<+T> = Ok(value: T) | Err(message: string)
}
