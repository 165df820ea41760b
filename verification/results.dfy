/** Option and Result: the outcomes of calls that may find nothing or raise. */
module Results {

  /** A value that may be absent (Python's `None`). */
  datatype Option<+T> = None | Some(value: T)

  /** A value, or the exception that was raised instead of producing it. */
  datatype Result<+T, +E> = Success(value: T) | Failure(error: E)
}
