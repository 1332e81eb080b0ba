/** Failure-carrying values shared by the model: Python's optional values and
    the exceptions the modelled code raises. */
module Wrappers {

  datatype Option<+T> = None | Some(value: T)

  /** The Python exceptions raised by the modelled code itself. */
  datatype PyError =
    | ValueError(message: string)
    | TypeError
    | KeyError
    | IndexError

  /** The outcome of an operation that either returns a value or raises. */
  datatype Result<+T> = Ok(value: T) | Err(error: PyError)
}
