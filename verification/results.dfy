/** Optional values and error-or-value results shared by all modules. */
module Results {

  datatype Option<+T> = None | Some(value: T)

  /** The outcome of a Python call: a value, or the exception it raises. */
  datatype Result<+R, +E> = Success(value: R) | Failure(error: E)
}
