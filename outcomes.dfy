/** Outcomes of the analyser's operations: a value, or the exception that the
    service raises instead of answering. */
module Outcomes {

  /** The kinds of failure the service produces.  The first two are the
      HTTP 400 answers it raises on purpose; the last two are the Python
      exceptions its arithmetic raises on inputs it does not screen. */
  datatype Error =
    | InvalidParameters   // "Parameters must be positive"
    | Unstable            // "System is unstable (rho >= 1)"
    | ZeroDivisionError   // a float or int division by zero
    | ValueError          // factorial of a negative number, a negative sampling scale, min() of an empty range

  /** A value or an error; usable with `:-`, which models an exception
      propagating out of a call. */
  datatype Result<+T> = Success(value: T) | Failure(error: Error) {
    predicate IsFailure() {
      Failure?
    }

    function PropagateFailure<U>(): Result<U>
      requires Failure?
    {
      Failure(error)
    }

    function Extract(): T
      requires Success?
    {
      value
    }
  }
}
