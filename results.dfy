/** Failure-carrying values: the model's stand-in for Python's None and exceptions. */
module Results {

  datatype Option<+T> = None | Some(value: T)

  /** A computation that either produced a value or raised an error. */
  datatype Result<+T, +E> = Ok(value: T) | Err(error: E)
}
