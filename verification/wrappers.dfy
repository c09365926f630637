/** Optional values and outcomes shared by the poll model. */
module Wrappers {

  /** An optional value: the model's stand-in for Python's `None`. */
  datatype Option<+T> = None | Some(value: T)

  /** Either a value or the error that stopped the computation. */
  datatype Result<+R, +E> = Success(value: R) | Failure(error: E)
}
