/** Failure-carrying values shared by every module of the model.

    The JavaScript code reports failures by throwing `Error`s (and, in one
    place, by calling a method that does not exist). Each kind of failure the
    core can raise is one constructor of `Error`; an operation that may throw
    returns a `Result`.
 */
module Results {

  datatype Option<T> = None | Some(value: T)

  /** The reasons the modelled code throws. */
  datatype Error =
    | MonthIndexOutOfRange           // utilities.js: "Month index out of range"
    | UnspecifiedMonth(monthIndex: int) // calendar.js: "Unspecified active days of the month index"
    | InvalidRange                   // calendar-builder.js: "Start date must be less than the end date"
    | NotAFunction                   // TypeError: calling a method the Calendar class does not define

  datatype Result<T> = Ok(value: T) | Err(error: Error) {
    predicate IsFailure() {
      Err?
    }

    function PropagateFailure<U>(): Result<U>
      requires Err?
    {
      Err(error)
    }

    function Extract(): T
      requires Ok?
    {
      value
    }
  }
}
