/** Optional values and value-or-error results, shared by the decoder and the encoder. */
module Results {

  /** A value that may be absent: a nil pointer, an unset field, a failed conversion. */
  datatype Option<+T> = None | Some(value: T)

  /** Either a value or the error that replaced it, as a Go `(value, error)` pair. */
  datatype Result<+R, +E> = Success(value: R) | Failure(error: E)
}
