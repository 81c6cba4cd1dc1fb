/** Option and Result values used across the model for Python's "missing key"
    and "raises an exception" outcomes. */
module Wrappers {

  datatype Option<+T> = None | Some(value: T) {
    /** Python's `d.get(key, default)`: the value when present, else the default. */
    function GetOr(default: T): T {
      match this
      case Some(v) => v
      case None => default
    }
  }

  /** The Python exceptions the modelled code can raise. */
  datatype PyError = ZeroDivisionError | IndexError | TypeError

  datatype Result<+R> = Success(value: R) | Failure(error: PyError)
}
