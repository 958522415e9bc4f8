/** Optional values, results and the error responses of the activity server. */
module Outcomes {

  datatype Option<+T> = None | Some(value: T)

  /** Every error response the server sends, named after its message. */
  datatype Failure =
    | MissingFields        // register / login: a required field is missing or empty
    | ShortPassword        // register: password shorter than 6 characters
    | InvalidName          // activity name missing, not a string or blank
    | InvalidPoints        // points missing, not a number, <= 0 or > 1000
    | InvalidActivityId    // the `:id` path segment is empty or not a number
    | UserIdRequired       // no `User-ID` header
    | InvalidUser          // the `User-ID` header names no user
    | InvalidCredentials   // unknown email or wrong password
    | UserExists           // email or username already registered
    | ActivityNotFound     // no row with that id belongs to the caller
    | InternalError        // a thrown exception or a failing library call
  {
    /** The HTTP status the failure is sent with. */
    function Status(): (code: int)
      ensures 400 <= code < 600
      ensures code == 401 <==> this in {UserIdRequired, InvalidUser, InvalidCredentials}
      ensures code == 400 <==> this in {MissingFields, ShortPassword, InvalidName, InvalidPoints, InvalidActivityId}
    {
      match this
      case MissingFields => 400
      case ShortPassword => 400
      case InvalidName => 400
      case InvalidPoints => 400
      case InvalidActivityId => 400
      case UserIdRequired => 401
      case InvalidUser => 401
      case InvalidCredentials => 401
      case UserExists => 409
      case ActivityNotFound => 404
      case InternalError => 500
    }
  }

  /** A handler's outcome: the success body, or the error response. */
  datatype Result<+T> = Ok(value: T) | Err(failure: Failure)
}
