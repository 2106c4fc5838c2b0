/** Optional and fallible results shared by the whole model. */
module Wrappers {

  /** A value that may be absent (PHP `null` for a missing neighbour, a failed lookup, ...). */
  datatype Option<+T> = None | Some(value: T)

  /** The outcome of an operation that can raise: `Failure` stands for a thrown exception. */
  datatype Result<+T, +E> = Success(value: T) | Failure(error: E) {

    predicate IsFailure() {
      Failure?
    }

    function PropagateFailure<U>(): Result<U, E>
      requires Failure?
    {
      Failure(error)
    }

    function Extract(): T
      requires Success?
    {
      value
    }
  }
}
