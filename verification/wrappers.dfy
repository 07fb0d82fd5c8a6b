/** Option and Result, the shapes of the service's optional rows and fallible outcomes. */
module Wrappers {

  /** A value that may be absent: a row `fetch_optional` did or did not find. */
  datatype Option<+T> = None | Some(value: T) {

    /** The value if present, otherwise `default` (SQL `COALESCE(value, default)`). */
    function GetOr(default: T): T {
      match this
      case Some(v) => v
      case None => default
    }
  }

  /** The outcome of a fallible step: a value or an error. */
  datatype Result<+T, +E> = Ok(value: T) | Err(error: E)
}
