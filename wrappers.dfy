/** Small shared datatypes: optional values (JavaScript's `undefined`/`null`),
    results of schema validation, and HTTP replies with their status codes. */
module Wrappers {

  /** A value that may be missing; `None` stands for `undefined` or `null`. */
  datatype Option<T> = None | Some(value: T) {
    function GetOr(default: T): T {
      match this
      case Some(v) => v
      case None => default
    }
  }

  /** The outcome of a storage-layer operation. */
  datatype Result<T, E> = Success(value: T) | Failure(error: E)

  /** An HTTP reply: a status with a JSON body, or an error status with the
      `message` text the controller sends. */
  datatype Reply<T> = Ok(status: nat, body: T) | Fail(status: nat, message: string)
}
