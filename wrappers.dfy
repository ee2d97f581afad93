/** Small value wrappers shared by every module of the model. */
module Wrappers {

  /** A value that may be absent (a missing JSON field, a failed lookup). */
  datatype Option<+T> = None | Some(value: T)
  {
    function GetOr(default: T): T
    {
      match this
      case Some(v) => v
      case None => default
    }
  }

  /** An HTTP reply of a route handler: a status code with either a JSON value or an `{ error }` message. */
  datatype Reply<+T> = Ok(status: nat, value: T) | Err(status: nat, error: string)
}
