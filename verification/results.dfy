/** Optional values and success/failure results used by the preprocessing model. */
module Results {

  /** A value that may be absent; stands for Python's `None` default arguments. */
  datatype Option<+T> = None | Some(value: T)

  /** The outcome of an operation that either produces a value or raises an error. */
  datatype Result<+T, +E> = Success(value: T) | Failure(error: E)
}
