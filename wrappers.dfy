/** Option, Result and the error value that Go's `error` interface carries. */
module Wrappers {

  datatype Option<+T> = None | Some(value: T) {
    /** The wrapped value, or `default` when there is none. */
    function GetOr(default: T): T {
      match this
      case Some(v) => v
      case None => default
    }
  }

  /** A Go `error`: only whether it is nil and the text it prints are observable. */
  datatype Error = Error(message: string)

  /** The `(value, error)` pair a Go function returns, with exactly one of the two set. */
  datatype Result<+T> = Ok(value: T) | Err(error: Error)
}
