/** Optional values and error-carrying results used across the model. */
module Wrappers {

  /** A value that may be absent: JavaScript's `undefined`/`null` or a missing key. */
  datatype Option<+T> = None | Some(value: T) {
    function GetOr(default: T): T {
      match this
      case Some(v) => v
      case None => default
    }
  }

  /** The outcome of a parse: the parsed value, or the error that rejected the input. */
  datatype Result<+R, +E> = Success(value: R) | Failure(error: E)
}
