/** Optional values and Python exceptions that escape a function. */
module Wrappers {

  /** A value that may be missing: Python's None, or a NaN cell of a DataFrame. */
  datatype Option<+T> = None | Some(value: T)

  /** The Python exceptions that the modelled code lets escape to its caller. */
  datatype PyException = IndexError | KeyError | ValueError

  /** The outcome of a Python call: a value, or an exception that propagates. */
  datatype Py<+T> = Ok(value: T) | Raised(exc: PyException)
}
