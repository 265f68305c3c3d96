/** Optional values, the failures the core raises, and results that carry either. */
module Results {

  datatype Option<+T> = None | Some(value: T) {
    function GetOr(default: T): T {
      match this
      case Some(v) => v
      case None => default
    }
  }

  /** Every exception the core raises, by the message or class it raises with. */
  datatype Error =
    | InvalidPeriodType(text: string)      // "invalid period type: ..."
    | InvalidPeriodString(text: string)    // "invalid period string: ..."
    | FractionalMagnitude(text: string)    // a Float magnitude survived parsing (not modelled)
    | CannotCoerce(description: string)    // "cannot coerce to Period: ..."
    | UndefinedLocalStr                    // NameError: Period.coerce of a String names `str`
    | ZeroDivision                         // Integer#% by a zero-valued grid unit
    | InvalidSnapType(name: string)        // "invalid snap type: ..."
    | EmptyPeriod                          // "empty period"
    | TooMuchInformation                   // "too much information"
    | NotEnoughInformation                 // "not enough information"
    | NotImplemented                       // NotImplementedError from solve_period
    | InvalidIntervalType(name: string)    // "invalid interval_type: ..."
    | NilComparison                        // ArgumentError: Integer compared with nil

  datatype Result<+T> = Ok(value: T) | Err(error: Error) {
    predicate IsFailure() {
      Err?
    }

    function PropagateFailure<U>(): Result<U>
      requires Err?
    {
      Err(error)
    }

    function Extract(): T
      requires Ok?
    {
      value
    }
  }

  /** A step that either completed or raised. */
  datatype Outcome = Pass | Fail(error: Error)
}
