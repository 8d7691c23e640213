/** Failure-carrying result types shared by the whole model.

    The Python sources signal failure by raising (`IndexError`, `ValueError`,
    `TypeError`, `AttributeError`, `KeyError`) or by returning `None`; the model returns one of these values
    instead so that the error path is part of every contract.
 */
module Wrappers {

  datatype Option<+T> = None | Some(value: T)

  /** The exception classes the Python library raises. */
  datatype Error =
    | IndexError
    | ValueError
    | TypeError
    | AttributeError
    | KeyError

  /** Supports `:-`, which stands for the exception propagating out of
      the caller. */
  datatype Result<+T> = Ok(value: T) | Err(error: Error)
  {
    predicate IsFailure()
    {
      Err?
    }

    function PropagateFailure<U>(): Result<U>
      requires Err?
    {
      Err(error)
    }

    function Extract(): T
      requires Ok?
    {
      value
    }
  }
}
