/** Failure-carrying values shared by the parser and the emitter. */
module Results {

  /** An optional value: the answer of a lookup that may find nothing. */
  datatype Option<+T> = None | Some(value: T)

  /** The outcome of an operation that either produces a value or stops with an error. */
  datatype Result<+T, +E> = Success(value: T) | Failure(error: E)
}
