/** Option and Result, used wherever the source returns an optional value or an error. */
module Wrappers {
  datatype Option<+T> = None | Some(value: T)

  /** Usable with `:-`, which hands an error on like the source's `?`. */
  datatype Result<+T, +E> = Ok(value: T) | Err(error: E) {
    predicate IsFailure() { Err? }

    function PropagateFailure<U>(): Result<U, E>
      requires Err?
    {
      Err(error)
    }

    function Extract(): T
      requires Ok?
    {
      value
    }
  }
}
