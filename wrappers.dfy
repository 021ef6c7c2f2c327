/** Optional values and typed results used by every handler of the store. */
module Wrappers {

  datatype Option<+T> = None | Some(value: T) {
    /** The wrapped value, or `default` when there is none (JavaScript's `x || d` on a present/absent field). */
    function GetOr(default: T): T {
      match this
      case Some(v) => v
      case None => default
    }
  }

  /**
   * The error kinds a handler can answer with. `BadRequest`, `NotFound` and `AccessDenied`
   * stand for the 400, 404 and 403 answers the controllers produce themselves;
   * `ValidationFailed` stands for a schema validation error raised by a save or insert,
   * which the controllers pass on to the error middleware.
   */
  datatype Error = BadRequest | NotFound | AccessDenied | ValidationFailed

  /** The result of a handler that answers with a value. */
  datatype Result<+T> = Ok(value: T) | Err(error: Error)

  /** The result of a handler that answers only with success or an error. */
  datatype Outcome = Pass | Fail(error: Error)
}
