/** An optional value and a success/failure result. */
module Wrappers {

  /** A value that may be missing (Python's `None`). */
  datatype Option<+T> = None | Some(value: T) {

    /** The wrapped value, or `default` when there is none. */
    function GetOr(default: T): T {
      match this
      case Some(v) => v
      case None => default
    }
  }

  /** The outcome of a request: a value, or the error it was rejected with. */
  datatype Result<+R, +E> = Success(value: R) | Failure(error: E)
}
