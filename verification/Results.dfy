/** Optional values and failure-carrying results: `None`, and a raised exception, in the source. */
module Results {

  datatype Option<+T> = None | Some(value: T)

  /** A returned value, or a raised `ValueError`, `TypeError`, `UnicodeError` or `RuntimeError`. */
  datatype Result<+T> = Success(value: T) | Failure {

    predicate IsFailure() {
      Failure?
    }

    function PropagateFailure<U>(): Result<U>
      requires Failure?
    {
      Failure
    }

    function Extract(): T
      requires Success?
    {
      value
    }
  }
}
