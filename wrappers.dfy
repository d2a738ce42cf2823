/** Optional values and outcomes of operations that may throw. */
module Wrappers {

  /** A value that may be missing: a Java reference that may be null, a preference key not stored. */
  datatype Option<+T> = None | Some(value: T) {
    /** The value when present, `default` otherwise (the `getX(key, default)` idiom). */
    function GetOr(default: T): T {
      match this
      case Some(v) => v
      case None => default
    }
  }

  /** The outcome of an operation that may throw. */
  datatype Result<+R, +E> = Success(value: R) | Failure(error: E)
}
