/** Option and Result, the two failure-carrying shapes used throughout the model.
    `Result.Failure` stands for a JavaScript exception: its payload is the thrown
    error's message. */
module Wrappers {

  datatype Option<+T> = None | Some(value: T) {
    function GetOr(default: T): T {
      match this
      case Some(v) => v
      case None => default
    }
  }

  datatype Result<+R, +E> = Success(value: R) | Failure(error: E)
}
