/** Failure-carrying values: an optional value and a success-or-error result. */
module Wrappers {

  /** A value that may be absent (Python's `None`, a missing dictionary key, a null cell). */
  datatype Option<+T> = None | Some(value: T) {
    function GetOr(default: T): T {
      match this
      case Some(v) => v
      case None => default
    }
  }

  /** The outcome of an operation that either yields a value or reports an error. */
  datatype Result<+R, +E> = Success(value: R) | Failure(error: E)
}
