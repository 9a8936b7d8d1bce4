/** Option and Result: null references and thrown exceptions of the server, as values. */
module Wrappers {

  /** `None` stands for a C# `null`. */
  datatype Option<+T> = None | Some(value: T) {
    function GetOr(default: T): T {
      match this
      case Some(v) => v
      case None => default
    }
  }

  /** `Failure` stands for an exception that the operation lets escape. */
  datatype Result<+T, +E> = Success(value: T) | Failure(error: E)
}
