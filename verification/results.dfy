/** Failure-carrying values shared by every component of the model. */
module Results {

  /** A value that may be absent, as Python's `None`. */
  datatype Option<+T> = None | Some(value: T)

  /** The outcome of an operation that either produces a value or stops the run with an error. */
  datatype Result<+T, +E> = Ok(value: T) | Err(error: E)
}
