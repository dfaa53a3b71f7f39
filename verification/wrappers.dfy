/** Failure-compatible wrappers shared by every module of the model. */
module Wrappers {

  /** A value or nothing: models a C pointer that may be NULL or a Java reference that may be null. */
  datatype Option<+T> = None | Some(value: T)

  /** A value or the error that ended the computation (a thrown exception, a failed call). */
  datatype Result<+T, +E> = Ok(value: T) | Err(error: E) {
    predicate IsFailure() { Err? }

    function PropagateFailure<U>(): Result<U, E>
      requires Err?
    {
      Err(error)
    }

    function Extract(): T
      requires Ok?
    {
      value
    }
  }
}
