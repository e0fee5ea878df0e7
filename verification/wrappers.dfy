/** Failure-compatible result types shared by both membership services. */
module Wrappers {

  /** A value that may be absent: an SQL NULL, a missing row or a missing header. */
  datatype Option<+T> = None | Some(value: T) {

    /** Returns the wrapped value, or `default` when absent (SQL `COALESCE`). */
    function GetOr(default: T): (r: T)
      ensures Some? ==> r == value
      ensures None? ==> r == default
    {
      match this
      case Some(v) => v
      case None => default
    }
  }

  /** The outcome of an operation that returns a Go `error` on failure. */
  datatype Result<+T, +E> = Ok(value: T) | Err(error: E)
}
