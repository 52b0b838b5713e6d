/** Failure-carrying datatypes used across the model. */
module Results {

  /** An optional value; the source's `None`. */
  datatype Option<+T> = None | Some(value: T)

  /** The outcome of an operation that can raise in the source. */
  datatype Result<+T, +E> = Success(value: T) | Failure(error: E)
}
