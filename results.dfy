/** Option and Result: the outcomes of operations that can fail in the calculator. */
module Results {

  datatype Option<+T> = None | Some(value: T)

  /** A computed value, or the exception the source raises instead. */
  datatype Result<+R, +E> = Success(value: R) | Failure(error: E)
}
