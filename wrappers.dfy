/** Option, Result and Outcome: the error paths of the package engine. */
module Wrappers {

  datatype Option<+T> = None | Some(value: T) {
    function GetOr(default: T): T {
      match this
      case Some(v) => v
      case None => default
    }
  }

  datatype Result<+T, +E> = Ok(value: T) | Err(error: E)

  /** A step that either passes or fails with an error (a promise that resolves to nothing). */
  datatype Outcome<+E> = Pass | Fail(error: E)
}
