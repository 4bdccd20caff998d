/** Optional values and results, standing in for Python's `None` and for
    exceptions that the modelled code raises. */
module Wrappers {

  /** A value that may be absent: a dictionary key that may be missing, or a
      function that may return `None`. */
  datatype Option<+T> = None | Some(value: T) {

    /** The wrapped value, or `default` when absent (Python's `d.get(k, default)`). */
    function GetOr(default: T): T {
      match this
      case Some(v) => v
      case None => default
    }
  }

  /** Either a value or the error the Python code would raise instead. */
  datatype Result<+T, +E> = Success(value: T) | Failure(error: E)
}
