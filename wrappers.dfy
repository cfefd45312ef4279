/** Optional values and the outcome of a request handler. */
module Wrappers {

  /** A value that may be absent: JavaScript's `null` / `undefined`. */
  datatype Option<T> = None | Some(value: T) {
    function GetOr(default: T): T {
      match this
      case Some(v) => v
      case None => default
    }
  }

  /** What an HTTP handler answers, without the JSON framing:
      200 (with or without data), 201 for a created document, 400 for
      rejected input, 404 for an unknown name, 500 for a thrown error. */
  datatype Response = Ok | Created | BadRequest | NotFound | ServerError
}
