/** Optional values and the two failure kinds an evaluation can end in. */
module Outcomes {

  datatype Option<T> = None | Some(value: T)

  /** ArithmeticException (shown as "Undefined") versus every other exception (shown as "Error"). */
  datatype Failure = DivisionByZero | InvalidExpression

  datatype Result<T> = Ok(value: T) | Err(error: Failure)
}
