/** Optional values and success/failure results, standing in for the
    `null`/`undefined` values and the `{ data, error }` replies of the
    remote service. */
module Wrappers {

  datatype Option<+T> = None | Some(value: T) {
    /** The value, or `default` when absent (the `x || default` idiom for
        values whose falsy cases all map to the default). */
    function GetOr(default: T): T {
      match this
      case Some(v) => v
      case None => default
    }
  }

  datatype Result<+T, +E> = Ok(value: T) | Err(error: E)

  /** A thrown error; `message` is present when it is an `Error` instance. */
  datatype Failure = Failure(message: Option<string>)

  /** The reply to an update or delete that returns no rows: success, or the
      error it reported. */
  datatype WriteReply = WriteOk | WriteFailed(failure: Failure)
}
