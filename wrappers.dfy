/** Option and Result values used where the source returns None or handles an exception. */
module Wrappers {

  datatype Option<+T> = None | Some(value: T) {
    /** The wrapped value, or `default` when absent (Python's `dict.get(key, default)`). */
    function GetOr(default: T): T {
      match this
      case Some(v) => v
      case None => default
    }
  }

  datatype Result<+T, +E> = Ok(value: T) | Err(error: E)
}

/** Octets as the byte strings that `base64` produces and `bytes.decode` consumes. */
module Octets {
  type uint8 = x: int | 0 <= x < 256
}
