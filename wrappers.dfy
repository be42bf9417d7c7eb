/** Option and Result, the two failure-carrying wrappers the model uses for the
    source's `None` values and raised exceptions. */
module Wrappers {

  datatype Option<+T> = None | Some(value: T) {
    function GetOr(default: T): T {
      match this
      case Some(v) => v
      case None => default
    }
  }

  /** `Err` stands for an exception raised by the operation; `error` names it. */
  datatype Result<+T> = Ok(value: T) | Err(error: string)
}
