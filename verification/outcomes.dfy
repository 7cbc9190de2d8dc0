/** Optional values and the error-or-value results the services return.
    `Err` carries the message of the exception the service throws. */
module Outcomes {

  /** A nullable reference or value: `None` stands for C#/TypeScript `null`. */
  datatype Option<+T> = None | Some(value: T) {
    function GetOr(default: T): T {
      if Some? then value else default
    }
  }

  /** A service call either completes with a value or throws with a message. */
  datatype Result<+T> = Ok(value: T) | Err(msg: string) {
    predicate IsFailure() {
      Err?
    }

    function PropagateFailure<U>(): Result<U>
      requires Err?
    {
      Err(msg)
    }

    function Extract(): T
      requires Ok?
    {
      value
    }
  }
}
