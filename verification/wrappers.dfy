/** Optional values and results with an error, the shapes Go expresses with
    nil pointers and `(value, error)` pairs. */
module Wrappers {

  /** A Go pointer that may be nil. */
  datatype Option<+T> = None | Some(value: T) {

    /** The pointed-to value, or the zero value `default` when nil
        (the `aws.StringValue` / `aws.Int64Value` convention). */
    function GetOr(default: T): T {
      match this
      case Some(v) => v
      case None => default
    }
  }

  /** A Go `(value, error)` return where exactly one half is meaningful. */
  datatype Result<+T, +E> = Success(value: T) | Failure(error: E)
}
