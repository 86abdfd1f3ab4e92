/** Optional values and results with an error, standing for Python's None and raised exceptions. */
module Outcomes {

  datatype Option<+T> = None | Some(value: T) {
    /** The value, or `default` when there is none (Python's `default if x is None else x`, as `d.get(k, default)` gives). */
    function GetOr(default: T): T {
      match this
      case Some(v) => v
      case None => default
    }
  }

  datatype Result<+T, +E> = Ok(value: T) | Err(error: E)
}
