/** Values that stand for Python's `None`-or-value and value-or-exception. */
module Outcomes {

  datatype Option<+T> = None | Some(value: T)

  /** The outcome of a Python call: the value it returned, or the message
      (`str(e)`) of the exception it raised. */
  datatype Attempt<+T> = Ok(value: T) | Raised(message: string)
}
