/** src/Result.ts: a result is either a value or an error. */
module Results {
  datatype Result<T, E> = Ok(value: T) | Err(error: E)

  datatype Option<T> = None | Some(value: T)
}
