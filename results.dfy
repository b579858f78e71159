/** The optional and fallible values the source expresses with `Option` and
    `Result`. */
module Results {
  datatype Option<T> = None | Some(value: T)

  datatype Result<T, E> = Ok(value: T) | Err(error: E)
}
