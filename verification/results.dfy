/** Failure-carrying values used throughout the model in place of the
    exceptions the history viewer lets escape (IndexError, ValueError). */
module Results {

  /** A value that may be missing. */
  datatype Option<+T> = None | Some(value: T)

  /** Either a computed value or the reason it could not be computed. */
  datatype Result<+T, +E> = Ok(value: T) | Err(error: E)
}
