/** Failure-carrying return values, standing in for the exceptions of the firmware. */
module Wrappers {

  datatype Option<+T> = None | Some(value: T)

  /** A value, or the error a Python function would have raised instead. */
  datatype Result<+R, +E> = Success(value: R) | Failure(error: E) {

    predicate IsFailure() {
      Failure?
    }

    function PropagateFailure<U>(): Result<U, E>
      requires Failure?
    {
      Failure(error)
    }

    function Extract(): R
      requires Success?
    {
      value
    }

    function MapFailure<E2>(wrap: E -> E2): Result<R, E2>
    {
      match this
      case Success(v) => Success(v)
      case Failure(e) => Failure(wrap(e))
    }
  }

  /** Normal completion of a procedure that returns nothing, or the error it raised. */
  datatype Outcome<+E> = Pass | Fail(error: E)
}
