/** Option and Result values used to model Python's None and raised exceptions. */
module Results {
  datatype Option<T> = None | Some(value: T)

  /** `Err` stands for a raised exception; its payload names the exception. */
  datatype Result<T, E> = Ok(value: T) | Err(error: E)
}
