/** Results shared by both models: Python's `None` for "no value", and a call
    that either returns or raises. */
module Wrappers {
  datatype Option<+T> = None | Some(value: T)

  /** The Python exceptions the modelled code can raise. */
  datatype PyError = IndexError | TypeError

  datatype Outcome<+T> = Returned(value: T) | Raised(error: PyError)
}
