/** The optional values and error returns used across the model. */
module Results {

  datatype Option<T> = None | Some(value: T)

  /** A value, or the exception the Python code would raise instead. */
  datatype Result<T, E> = Ok(value: T) | Err(error: E)
}
