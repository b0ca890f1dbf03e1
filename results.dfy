/** Failure-carrying wrappers used throughout the model. */
module Results {

  /** A value that may be missing (Python's `None`). */
  datatype Option<T> = None | Some(value: T)

  /** The outcome of a step that either produces a value or fails with a reason. */
  datatype Result<T, E> = Ok(value: T) | Err(error: E)
}
