/** Option and Result, used for absent request parameters and for error returns. */
module Common {

  datatype Option<+T> = None | Some(value: T) {
    /** The carried value, or `default` when absent (Python's `dict.get(key, default)`). */
    function GetOr(default: T): T {
      match this
      case Some(v) => v
      case None => default
    }
  }

  datatype Result<+T, +E> = Ok(value: T) | Err(error: E)
}
