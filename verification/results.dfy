/** Rust's `Result<T, E>` and `Option<T>`. */
module Results {
  datatype Result<T, E> = Ok(value: T) | Err(error: E)

  datatype Option<T> = None | Some(value: T)
}
