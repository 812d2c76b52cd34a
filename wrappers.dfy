/** Optional values and results with an error, as the rest of the model uses them. */
module Wrappers {

  /** A value that may be absent: `None` stands for a failed call. */
  datatype Option<+T> = None | Some(value: T)

  /** Either a value or the error that stopped the operation before it had one. */
  datatype Result<+R, +E> = Success(value: R) | Failure(error: E)
}
