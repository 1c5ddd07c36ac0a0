/** Failure-aware result types shared by the other modules. */
module Wrappers {

  /** A value that may be absent (the sources' null). */
  datatype Option<+T> = None | Some(value: T) {
    function GetOr(default: T): T {
      match this
      case Some(v) => v
      case None => default
    }
  }

  /** A value or the error the source throws or returns. */
  datatype Result<+T, +E> = Ok(value: T) | Err(error: E)
}
