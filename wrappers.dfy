/** Optional values and Python-style failures shared by every module of the model. */
module Wrappers {

  /** A value that may be absent; Python's `None` where the source allows it. */
  datatype Option<+T> = None | Some(value: T)

  /** The kinds of exception the modelled code raises or lets propagate. */
  datatype PyError =
    | ValueError
    | KeyError
    | IndexError
    | TypeError
    | AttributeError
    | AssertionError

  /** The outcome of a call that either returns a value or raises. */
  datatype Result<+T> = Ok(value: T) | Err(error: PyError) {

    predicate IsFailure() {
      Err?
    }

    function PropagateFailure<U>(): Result<U>
      requires Err?
    {
      Err(error)
    }

    function Extract(): T
      requires Ok?
    {
      value
    }
  }
}
