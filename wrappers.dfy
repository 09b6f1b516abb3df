/** Failure-compatible result types shared by every module of the model. */
module Wrappers {

  /** An optional value: `None` stands for a null pointer of the source. */
  datatype Option<+T> = None | Some(value: T)

  /** The outcome of an elaboration step: a value, or the error that stopped it. */
  datatype Result<+T, +E> = Success(value: T) | Failure(error: E) {

    predicate IsFailure() {
      Failure?
    }

    function PropagateFailure<U>(): Result<U, E>
      requires Failure?
    {
      Failure(error)
    }

    function Extract(): T
      requires Success?
    {
      value
    }
  }
}
