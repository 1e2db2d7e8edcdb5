/** Option and Result, the shapes every repository operation below returns. */
module Results {

  datatype Option<+T> = None | Some(value: T)

  /** A value, or the error a Go function would return beside a nil value. */
  datatype Result<+T, +E> = Ok(value: T) | Err(error: E)
}
