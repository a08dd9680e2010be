/** Option and Result, used for the absent values and the raised exceptions of the source. */
module Wrappers {

  datatype Option<+T> = None | Some(value: T)

  /** `Failure` stands for a Python exception that propagates out of the call. */
  datatype Result<+T, +E> = Success(value: T) | Failure(error: E)
}
