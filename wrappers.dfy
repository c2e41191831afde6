/** Failure-compatible result types, used for the `?`-propagating operations of the model. */
module Wrappers {

  datatype Option<+T> = None | Some(value: T)

  /** A value or an error; `:-` propagates the error the way Rust's `?` does. */
  datatype Result<+T, +E> = Ok(value: T) | Err(error: E) {
    predicate IsFailure() {
      Err?
    }

    function PropagateFailure<U>(): Result<U, E>
      requires Err?
    {
      Err(error)
    }

    function Extract(): T
      requires Ok?
    {
      value
    }
  }

  /** Success without a value (Rust's `Result<(), E>`). */
  datatype Outcome<+E> = Pass | Fail(error: E) {
    predicate IsFailure() {
      Fail?
    }

    function PropagateFailure<U>(): Result<U, E>
      requires Fail?
    {
      Err(error)
    }
  }
}
