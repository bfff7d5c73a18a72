/** Failure-carrying datatypes used for the fallible operations of the editor:
    `Option` for lookups that may find nothing, `Result` for operations that
    either produce a value or report an error. */
module Wrappers {

  datatype Option<+T> = None | Some(value: T) {

    /** The held value, falling back to `default` for None */
    function GetOr(default: T): T {
      match this
      case Some(v) => v
      case None => default
    }
  }

  datatype Result<+R, +E> = Success(value: R) | Failure(error: E)
}
