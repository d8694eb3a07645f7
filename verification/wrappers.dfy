/** Failure-compatible result types used by every stage of the model. */
module Wrappers {

  datatype Option<+T> = None | Some(value: T)

  /** The outcome of a stage: a value, or the exception the source raises. */
  datatype Result<+T, +E> = Success(value: T) | Failure(error: E) {

    predicate IsFailure() {
      Failure?
    }

    function PropagateFailure<U>(): Result<U, E>
      requires Failure?
    {
      Failure(error)
    }

    function Extract(): T
      requires Success?
    {
      value
    }
  }
}
