/**
  Option and Result types shared by the codecs and the store model, and the
  kinds of failure the Python code raises on the paths that are modelled.
 */
module Wrappers {

  /** `None` is Python's `None` for an optional value. */
  datatype Option<+T> = None | Some(value: T)

  /** The exceptions the modelled code can raise. */
  datatype Error =
    | KeyError(key: string)          // `item[name][tag]` with the wrong tag
    | ValueError(literal: string)    // `int(text)` on a text that is not an integer literal
    | TypeError(argument: string)    // a dataclass constructed without a required argument
    | AttributeError(name: string)   // an attribute set on `None`
    | StorageError(reason: string)   // the key-value store rejected a request

  datatype Result<+T> = Ok(value: T) | Err(error: Error) {
    predicate IsFailure() {
      Err?
    }

    function PropagateFailure<U>(): Result<U>
      requires Err?
    {
      Err(error)
    }

    function Extract(): T
      requires Ok?
    {
      value
    }
  }
}
