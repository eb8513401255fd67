/** Failure-carrying values used throughout the model: Python's `None`/value
    and the exceptions the program raises become Option and Result. */
module Outcomes {

  datatype Option<+T> = None | Some(value: T) {
    /** The wrapped value, or `default` when there is none. */
    function GetOr(default: T): T {
      match this
      case Some(v) => v
      case None => default
    }
  }

  datatype Result<+T, +E> = Ok(value: T) | Err(error: E)
}
