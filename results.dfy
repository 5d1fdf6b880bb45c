/** Optional values and success-or-error outcomes, shared by the models. */
module Results {

  /** A value that may be absent (`undefined` / `null` in the source). */
  datatype Option<T> = None | Some(value: T)

  /** The outcome of an operation that may throw: its value, or the error it rethrows. */
  datatype Result<T, E> = Ok(value: T) | Err(error: E)
}
