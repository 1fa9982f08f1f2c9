/** Optional values and results with an error, used for the nullable references and the
    exceptions of the modelled code. */
module Wrappers {

  /** A value that may be absent: `None` stands for a null reference. */
  datatype Option<+T> = None | Some(value: T)

  /** Either a value or the error the modelled operation throws. */
  datatype Result<+T, +E> = Success(value: T) | Failure(error: E) {

    predicate IsFailure() {
      Failure?
    }

    function PropagateFailure<U>(): Result<U, E>
      requires Failure?
    {
      Failure(error)
    }

    function Extract(): T
      requires Success?
    {
      value
    }
  }
}
