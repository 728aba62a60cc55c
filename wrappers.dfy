/** Option and Result, the shapes the store uses for absent values and error returns. */
module Wrappers {

  /** A value that may be absent: SQL NULL, a missing request field or CSV column. */
  datatype Option<+T> = None | Some(value: T) {
    function GetOr(default: T): T {
      match this
      case Some(v) => v
      case None => default
    }
  }

  /** The outcome of a request: a value, or the error the controller answers with. */
  datatype Result<+T, +E> = Success(value: T) | Failure(error: E)
}
