/** Optional values and results shared by the fuel pipeline model. */
module Wrappers {

  /** A value that may be missing; `None` stands for the source's NaN. */
  datatype Option<+T> = None | Some(value: T)

  /** The outcome of a step that can fail with an error the source raises. */
  datatype Result<+T, +E> = Ok(value: T) | Err(error: E) {
    predicate IsFailure() {
      Err?
    }

    function PropagateFailure<U>(): Result<U, E>
      requires Err?
    {
      Err(error)
    }

    function Extract(): T
      requires Ok?
    {
      value
    }
  }
}
