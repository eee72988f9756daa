/** Failure-carrying wrappers shared by every module of the model. */
module Base {

  /** A value that may be absent: SQL NULL, a missing object key, an optional argument. */
  datatype Option<+T> = None | Some(value: T)

  /** The outcome of an operation that either returns a value or throws / rejects. */
  datatype Result<+T, +E> = Ok(value: T) | Err(error: E)
}
