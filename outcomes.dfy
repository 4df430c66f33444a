/// Result values that stand for the HTTP answers of the schedule views.
module Outcomes {

  datatype Option<+T> = None | Some(value: T) {
    function GetOr(default: T): T {
      match this
      case Some(v) => v
      case None => default
    }
  }

  /** Why a view answered "bad request" (HTTP 400). */
  datatype Rejection =
    | MissingField          // a required value is absent or falsy
    | InvalidField          // update_bilan: a field other than the three *_completed ones
    | NotAnInteger          // update_bilan: int(value) raised ValueError
    | NegativeValue         // update_bilan: value < 0
    | AbovePlanned          // update_bilan: value > the matching *_hours
    | CompletedAbovePlanned // Course.save raised ValueError
    | IllTyped              // update_course: the guard or the write raised on a value of the wrong type

  /** Why a view answered "server error" (HTTP 500). */
  datatype ServerFault =
    | SaveRefused        // Course.save raised ValueError where the view only catches Exception
    | DuplicateCode      // INSERT of a course whose primary key exists
    | MultipleMatches    // get_or_create found more than one row
    | ZeroDivision       // total_progress divided by a zero sum of planned hours
    | NullProfessor      // an assignment whose professor was set to NULL was dereferenced
    | NotConvertible     // int() raised TypeError on a list or an object
    | UnorderedValues    // the guard of Course.save compared values Python cannot order (TypeError)
    | ColumnRefused      // the database could not store a value (int() failed, or NULL in a NOT NULL column)

  /** The outcome of a view: a payload, or the error it answers with. */
  datatype Response<+T> =
    | Ok(value: T)
    | NotFound
    | BadRequest(rejection: Rejection)
    | ServerError(fault: ServerFault)
  {
    /** The same error answer from a view whose payload has another type. */
    function Relay<U>(): (r: Response<U>)
      requires !Ok?
    {
      match this
      case NotFound => NotFound
      case BadRequest(why) => BadRequest(why)
      case ServerError(fault) => ServerError(fault)
    }
  }
}
