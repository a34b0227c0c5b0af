/** Option and Result values used for the operating system's failure paths. */
module Results {

  datatype Option<T> = None | Some(value: T)

  /** The outcome of a step that can raise: a value, or the error it raised. */
  datatype Result<T, E> = Ok(value: T) | Err(error: E)
}
