/** Optional values and error-or-value results shared by the three commands. */
module Wrappers {

  /** A value that may be missing: PHP's `null` or an absent array key. */
  datatype Option<+T> = None | Some(value: T) {
    function GetOr(default: T): T {
      match this
      case Some(v) => v
      case None => default
    }
  }

  /** A computation that either succeeds or fails with an error value. */
  datatype Result<+T, +E> = Ok(value: T) | Err(error: E)
}
