/** Failure-compatible wrappers used by every service: an optional value, a
    result that carries a value or an error, and an outcome that only passes or
    fails. The error type is fixed to the services' exception kinds. */
module Results {
  import opened Exceptions

  datatype Option<+T> = None | Some(value: T)

  /** A call that either returns a value or throws one of the services' exceptions. */
  datatype Result<+T> = Success(value: T) | Failure(error: Error) {
    predicate IsFailure() { Failure? }

    function PropagateFailure<U>(): Result<U>
      requires Failure?
    {
      Failure(error)
    }

    function Extract(): T
      requires Success?
    {
      value
    }
  }

  /** A `void` call that either returns normally or throws. */
  datatype Outcome = Pass | Fail(error: Error) {
    predicate IsFailure() { Fail? }

    function PropagateFailure<U>(): Result<U>
      requires Fail?
    {
      Failure(error)
    }
  }
}
