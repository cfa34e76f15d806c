/** Optional values and success-or-error results shared by both components. */
module Results {

  datatype Option<+T> = None | Some(value: T)

  /** The outcome of an operation that raises an exception in place of returning a value. */
  datatype Result<+T, +E> = Ok(value: T) | Err(error: E)
}
