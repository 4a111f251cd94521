/** Failure-carrying values shared by the whole model. */
module Results {

  /** A value that may be absent; the source returns Python's `None` for a failed read. */
  datatype Option<+T> = None | Some(value: T)

  /** Either a computed value or the reason the computation stopped. */
  datatype Result<+T, +E> = Success(value: T) | Failure(error: E)
}
