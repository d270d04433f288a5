/** Stand-ins for the null references and exceptions of the .NET code. */
module Wrappers {

  /** A value that may be absent: `None` plays the part of a `null` reference. */
  datatype Option<+T> = None | Some(value: T) {

    /** The value, or `default` when absent (C#'s `x ?? default`). */
    function GetOr(default: T): T {
      match this
      case Some(v) => v
      case None => default
    }
  }

  /** The exceptions the modelled code can raise. */
  datatype Exception =
    | ArgumentNullException(paramName: string)
    | NullReferenceException

  /** A call that returns a value or throws. */
  datatype Result<+T> = Success(value: T) | Failure(error: Exception)
}
