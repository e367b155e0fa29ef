/** The failure outcomes of the valuation code and a failure-compatible result type. */
module Outcomes {

  /** The ways the valuation code stops without a real-number result. */
  datatype Error =
    | ZeroDivision          // Python's ZeroDivisionError (zero buy price, zero-length period, 0.0 ** negative on Python floats)
    | NotReal               // a negative Python float raised to a non-integral power: the result is complex
    | MissingYear(year: int) // pandas' KeyError when a year is not a row label of the table
    | DataNotAvailable      // DataNotAvailableError raised by the month-label sanity check

  datatype Result<+T> = Success(value: T) | Failure(error: Error) {
    predicate IsFailure() { Failure? }

    function PropagateFailure<U>(): Result<U>
      requires Failure?
    {
      Failure(error)
    }

    function Extract(): T
      requires Success?
    {
      value
    }
  }

  /** The outcome of a check that returns nothing or raises. */
  datatype Outcome = Pass | Fail(error: Error)
}
