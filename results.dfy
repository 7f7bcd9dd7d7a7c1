/** Failure-compatible wrappers used by every formatter.
    A `Failure` stands for the Python exception the original code would raise. */
module Results {

  datatype Option<+T> = None | Some(value: T)

  /** The Python exceptions the formatters can raise on bad input. */
  datatype Error = ValueError | IndexError | TypeError | KeyError

  datatype Result<+T> = Success(value: T) | Failure(error: Error) {
    predicate IsFailure() {
      Failure?
    }

    function PropagateFailure<U>(): Result<U>
      requires Failure?
    {
      Failure(error)
    }

    function Extract(): T
      requires Success?
    {
      value
    }
  }
}
