/** Small value wrappers shared by every part of the model. */
module Wrappers {

  /** A value that may be missing (Python `None`, JavaScript `null`/`undefined`). */
  datatype Option<+T> = None | Some(value: T) {
    function GetOr(default: T): T {
      match this
      case Some(v) => v
      case None => default
    }
  }

  /** A field of a JSON request body: the key is missing, present with `null`, or present with a value.
      Python's `dict.get(key, default)` tells the first two apart, so the model does too. */
  datatype Field<+T> = Absent | Null | Given(value: T)

  /** The outcome of a request handler: a value, or an HTTP error status with its message. */
  datatype Response<+T> = Ok(value: T) | HttpError(status: int, message: string)
}
