/** Types shared by the models. */
module Common {

  /** A value that may be absent: a nil pointer, a missing row, a cache miss. */
  datatype Option<+T> = None | Some(value: T)

  /** An operation that may fail with an error. */
  datatype Result<+T, +E> = Ok(value: T) | Err(error: E)
}
