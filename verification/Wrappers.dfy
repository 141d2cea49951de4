/** The two result shapes every module shares. */
module Wrappers {
  datatype Option<+T> = None | Some(value: T)

  /** `Err` stands for the exception the program raises at that point. */
  datatype Result<+T, +E> = Ok(value: T) | Err(error: E) {
    predicate IsFailure() {
      Err?
    }

    function PropagateFailure<U>(): (r: Result<U, E>)
      requires Err?
    {
      Err(error)
    }

    function Extract(): T
      requires Ok?
    {
      value
    }
  }
}
