/** Option and Result values: the model's stand-ins for Python's None and raised exceptions. */
module Wrappers {

  datatype Option<+T> = None | Some(value: T)

  /** A computation that either returns a value or raises; the error carries str(exception). */
  datatype Result<+T> = Ok(value: T) | Err(error: string)
}
