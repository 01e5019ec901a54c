/** Optional values and fallible results shared by the rest of the model. */
module Wrappers {

  /** A value that may be absent, like a key missing from a JSON request body. */
  datatype Option<+T> = None | Some(value: T) {

    /** The carried value, or `default` when there is none (Python's `dict.get(key, default)`). */
    function GetOr(default: T): T {
      match this
      case Some(v) => v
      case None => default
    }
  }

  /** The outcome of an operation that can raise: either its value or the error message. */
  datatype Result<+T> = Ok(value: T) | Err(message: string)
}
