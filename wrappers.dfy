/** Option and Result, standing in for Python's `dict.get` (key present or not)
    and for the exceptions the transcriber raises. */
module Wrappers {

  datatype Option<+T> = None | Some(value: T) {
    /** The value if present, otherwise `default` (what `dict.get(key, default)` returns). */
    function GetOr(default: T): T {
      match this
      case Some(v) => v
      case None => default
    }
  }

  datatype Result<+R, +E> = Success(value: R) | Failure(error: E)
}
