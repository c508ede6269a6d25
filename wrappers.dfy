/** Failure-carrying values: the model's stand-in for Python's None and for raised exceptions. */
module Wrappers {

  datatype Option<+T> = None | Some(value: T)

  /** `Err` plays the part of an exception that the caller sees propagate. */
  datatype Result<+T, +E> = Ok(value: T) | Err(error: E)
}
