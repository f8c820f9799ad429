/** Failure-carrying results: the model's stand-in for Python exceptions. */
module Wrappers {

  datatype Option<+T> = None | Some(value: T)

  /** Ok carries the value a Python function returns; Err the exception it raises instead. */
  datatype Result<+T, +E> = Ok(value: T) | Err(error: E)
}
