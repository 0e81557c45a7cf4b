/** Error kinds the use cases and gates return, and the option/result
    wrappers used throughout the model. */
module Errors {

  /** The Fiber errors the authentication core returns: 400, 401, 404, 409
      and 500. */
  datatype ErrorKind = BadRequest | Unauthorized | NotFound | Conflict | Internal

  datatype Option<+T> = None | Some(value: T)

  /** Either a value or the kind of error that replaced it. */
  datatype Result<+T> = Ok(value: T) | Err(kind: ErrorKind)

  /** An operation's outcome without a value (a Go `error` that may be nil). */
  datatype Outcome = Pass | Fail(kind: ErrorKind)
}
