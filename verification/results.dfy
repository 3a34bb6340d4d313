/** Failure-carrying values used in place of the source's exceptions and `None`s. */
module Results {

  /** A value that may be absent (a dictionary key that was never set, say). */
  datatype Option<+T> = None | Some(value: T)

  /** The outcome of a library call that either returns or raises. */
  datatype Result<+T, +E> = Ok(value: T) | Err(error: E)
}
