/** Option and Result, the failure-carrying values used by the extractors. */
module Wrappers {

  /** Present or absent; stands for a lookup that may find nothing. */
  datatype Option<T> = None | Some(value: T)

  /** A value, or the error that stopped the computation. */
  datatype Result<T, E> = Success(value: T) | Failure(error: E)
}
