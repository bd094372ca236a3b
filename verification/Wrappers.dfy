// Shared result shapes: a value that may be absent, and the service's error returns.
module Wrappers {
  datatype Option<+T> = None | Some(value: T) {
    function GetOr(default: T): T {
      match this
      case Some(v) => v
      case None => default
    }
  }

  datatype Result<+T, +E> = Ok(value: T) | Err(error: E)

  /** The domain errors of the service layer that the modelled operations return. */
  datatype Error =
    | NotFound
    | AlreadyExists
    | InvalidArgument
    | Unprocessable
    | Internal
    | RollbackFailed  // also INTERNAL to the caller; kept apart to say what is left behind
}
