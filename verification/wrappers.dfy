/** How the model writes C#'s two ways of not producing an ordinary value:
    a `null` reference, and a thrown exception. */
module Wrappers {

  /** A reference that may be `null`: `None` is the null reference. */
  datatype Option<+T> = None | Some(value: T)

  /** A call that either returns `value` or throws `error`. The three members
      below let a caller pass a throw on with `:-`. */
  datatype Result<+R, +E> = Success(value: R) | Failure(error: E) {

    predicate IsFailure() {
      Failure?
    }

    function PropagateFailure<U>(): Result<U, E>
      requires Failure?
    {
      Failure(error)
    }

    function Extract(): R
      requires Success?
    {
      value
    }
  }
}
