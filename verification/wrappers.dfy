/** Failure-compatible wrappers used throughout the model: `Option` stands for a
    .NET reference that may be null, `Result` for a call that either returns a
    value or throws. */
module Wrappers {

  /** A nullable reference: `None` is `null`. */
  datatype Option<+T> = None | Some(value: T)

  /** The outcome of a call: a returned value, or the exception it throws. */
  datatype Result<+R, +E> = Success(value: R) | Failure(error: E) {

    predicate IsFailure() {
      Failure?
    }

    function PropagateFailure<U>(): Result<U, E>
      requires Failure?
    {
      Failure(error)
    }

    function Extract(): R
      requires Success?
    {
      value
    }
  }
}
