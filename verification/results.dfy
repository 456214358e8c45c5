/** Failure-carrying values used throughout the model: an optional value and a
    success-or-error result. The validator's exceptions become `Failure` values. */
module Results {

  /** A value that may be absent (PHP's `false`/unset returns). */
  datatype Option<+T> = None | Some(value: T)

  /** Either the computed value or the error that ended the computation. */
  datatype Result<+T, +E> = Success(value: T) | Failure(error: E)
}
