/** Optional values, used for the pointer fields of the API records, and the
    results of calls that may fail. */
module Wrappers {

  /** An optional value: `None` stands for a nil pointer. */
  datatype Option<+T> = None | Some(value: T) {

    /** The wrapped value, or `default` when there is none. */
    function GetOr(default: T): T {
      match this
      case Some(v) => v
      case None => default
    }
  }

  /** The value of a call that either returns a value or an error. */
  datatype Result<+R, +E> = Success(value: R) | Failure(error: E)

  /** The value of a call that returns only an error, or nothing. */
  datatype Outcome<+E> = Pass | Fail(error: E)
}
