/** Failure-carrying result types shared by every module of the model. */
module Wrappers {

  /** A value that may be absent; stands for a Go nil pointer result. */
  datatype Option<+T> = None | Some(value: T)

  /** Either a value or an error; stands for Go's `(T, error)` pair. */
  datatype Result<+T, +E> = Success(value: T) | Failure(error: E) {
    predicate IsFailure() {
      Failure?
    }

    function PropagateFailure<U>(): Result<U, E>
      requires Failure?
    {
      Failure(error)
    }

    function Extract(): T
      requires Success?
    {
      value
    }
  }
}
