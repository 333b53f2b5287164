/** Failure-compatible result types, so that Rust's `?` can be written as Dafny's `:-`. */
module Wrappers {

  datatype Option<+T> = None | Some(value: T)

  /** `Result<R, E>` of the Rust code: a success value or an error value. */
  datatype Result<+R, +E> = Success(value: R) | Failure(error: E) {

    predicate IsFailure() {
      Failure?
    }

    function PropagateFailure<U>(): Result<U, E>
      requires Failure?
    {
      Failure(error)
    }

    function Extract(): R
      requires Success?
    {
      value
    }
  }

  /** The outcome of a call that returns no value, such as `serialize_entry`. */
  datatype Outcome<+E> = Pass | Fail(error: E)
}
