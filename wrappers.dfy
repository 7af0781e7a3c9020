/** Optional values and success-or-failure results shared by every module. */
module Wrappers {

  /** A value that may be missing: JavaScript's `undefined` (or an absent
      property) is `None`. */
  datatype Option<+T> = None | Some(value: T) {

    /** The value, or `default` when it is missing (the `??` / `||` fallback). */
    function GetOr(default: T): T {
      match this
      case Some(v) => v
      case None => default
    }
  }

  /** The settled state of a promise: resolved with a value or rejected with
      an error. */
  datatype Result<+T, +E> = Success(value: T) | Failure(error: E)
}
