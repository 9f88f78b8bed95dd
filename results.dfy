/** Value-or-error wrappers for the pipeline's error returns. */
module Results {

  /** A value that may be absent (a Go nil, or a "comma ok" lookup that failed). */
  datatype Option<+T> = None | Some(value: T)

  /** Either a value or the error that a Go function returns beside it. */
  datatype Result<+T, +E> = Ok(value: T) | Err(error: E)
}
