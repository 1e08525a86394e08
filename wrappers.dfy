/** Option and Result, used for Python's optional keys and raised exceptions. */
module Wrappers {

  datatype Option<+T> = None | Some(value: T)
  {
    /** The value, or `default` when absent (Python's `d.get(k) or default`). */
    function GetOr(default: T): T
    {
      match this
      case Some(v) => v
      case None => default
    }
  }

  datatype Result<+T, +E> = Ok(value: T) | Err(error: E)
}
