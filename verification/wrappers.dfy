/** Optional values and results with an error, shared by every module. */
module Wrappers {

  /** A value that may be absent: Python's `None`, or a key missing from a dict. */
  datatype Option<+T> = None | Some(value: T) {
    function GetOr(default: T): T {
      match this
      case Some(v) => v
      case None => default
    }
  }

  /** The outcome of an operation that can raise: `Err` stands for the exception. */
  datatype Result<+T, +E> = Ok(value: T) | Err(error: E)
}
