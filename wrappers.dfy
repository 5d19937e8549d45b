/** Failure-compatible result types shared by the encoder and the decoder. */
module Wrappers {

  datatype Option<+T> = None | Some(value: T)

  /** A value or the error that the source would throw instead. */
  datatype Result<+R, +E> = Ok(value: R) | Err(error: E) {
    predicate IsFailure() { Err? }

    function PropagateFailure<U>(): Result<U, E>
      requires Err?
    {
      Err(error)
    }

    function Extract(): R
      requires Ok?
    {
      value
    }
  }

  /** The outcome of a method that either completes or throws. */
  datatype Outcome<+E> = Pass | Fail(error: E)
}
