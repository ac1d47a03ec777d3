/** Replies of the route handlers: a value on success, or one of the errors the
    handlers answer with, each mapped to the HTTP status the handler sends. */
module Outcomes {

  /** A value that may be absent: a nullable column, a `null` in a JSON reply,
      or a request field that was not sent. */
  datatype Option<+T> = None | Some(value: T)

  /** Every way a handler of the quiz service can refuse a request. */
  datatype Error =
    | MissingFields                                      // a required request field is absent or falsy
    | MissingDocument                                    // no PDF was uploaded with the request
    | UserNotFound                                       // no users row has the uid
    | ActiveTestExists(testId: string, password: string) // the owner already has an unexpired test
    | NoQuestionSet                                      // no question-set file exists for the uid
    | BadCredentials                                     // no test matches the id and password
    | TestExpired                                        // the matched test is past its expiry time
    | InvalidIndex                                       // the question index is out of bounds
    | StorageFailure                                     // the database rejected a write (500)
  {
    /** The HTTP status the handler answers with for this error. */
    function Status(): int
    {
      match this
      case MissingFields => 400
      case MissingDocument => 400
      case UserNotFound => 404
      case ActiveTestExists(_, _) => 400
      case NoQuestionSet => 404
      case BadCredentials => 401
      case TestExpired => 400
      case InvalidIndex => 400
      case StorageFailure => 500
    }
  }

  datatype Result<+T> = Ok(value: T) | Err(error: Error)
}
