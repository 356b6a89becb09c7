/** Option and Result, the shapes the model uses for Python's `None`-or-value
    lookups and for operations that raise `KeyError`. */
module Wrappers {

  datatype Option<+T> = None | Some(value: T) {
    /** The value, or `default` when there is none. */
    function GetOr(default: T): T {
      match this
      case Some(v) => v
      case None => default
    }
  }

  /** The one exception the core raises: a missing key, as `dict.__getitem__`
      and `dict.__delitem__` raise it. */
  datatype Error = KeyError(key: string)

  datatype Result<+R> = Ok(value: R) | Err(error: Error)

  /** The outcome of an operation that returns nothing but may raise. */
  datatype Outcome = Pass | Fail(error: Error)
}
