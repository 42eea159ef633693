/** Failure-compatible result type shared by every module: the Python code
    raises an exception where the model returns `Failure`. */
module Results {

  datatype Result<+T, +E> = Success(value: T) | Failure(error: E) {

    predicate IsFailure() {
      Failure?
    }

    function PropagateFailure<U>(): Result<U, E>
      requires Failure?
    {
      Failure(error)
    }

    function Extract(): T
      requires Success?
    {
      value
    }
  }
}
