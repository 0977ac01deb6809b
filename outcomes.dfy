/** Option, error kinds and results shared by every layer of the model. */
module Outcomes {

  datatype Option<+T> = None | Some(value: T)

  /** The categories a failure falls into; each is answered with one HTTP status. */
  datatype ErrorKind =
    | Validation    // 400
    | Unauthorized  // 401
    | Forbidden     // 403
    | NotFound      // 404
    | Conflict      // 409
    | Internal      // 500, also a storage failure surfacing through a handler

  /** A failure with the `error` and `message` texts of the response body. */
  datatype Error = Error(kind: ErrorKind, title: string, detail: string)

  datatype Result<+T> = Ok(value: T) | Err(error: Error)

  /** Pass or fail, for checks that produce no value. */
  datatype Outcome = Pass | Fail(error: Error)

  function HttpStatus(k: ErrorKind): (code: nat)
    ensures 400 <= code <= 500
    ensures k == Internal <==> code == 500
  {
    match k
    case Validation => 400
    case Unauthorized => 401
    case Forbidden => 403
    case NotFound => 404
    case Conflict => 409
    case Internal => 500
  }
}
