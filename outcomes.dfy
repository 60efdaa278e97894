/** How an operation of the core ends: with a value, normally, or with an exception. */
module Outcomes {

  /** The two `IllegalArgumentException`s the core throws, named after their messages. */
  datatype Failure = NotEnoughStock | StockNotFound

  /** Completion of a Java method that returns a value. */
  datatype Result<T> = Ok(value: T) | Err(failure: Failure)

  /** Completion of a Java method declared `void`. */
  datatype Outcome = Completed | Threw(failure: Failure)

  function OutcomeOf<T>(r: Result<T>): (o: Outcome)
    ensures o.Completed? <==> r.Ok?
    ensures o.Threw? ==> o.failure == r.failure
  {
    match r
    case Ok(_) => Completed
    case Err(f) => Threw(f)
  }
}
