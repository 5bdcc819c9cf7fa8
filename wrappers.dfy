/** Failure-carrying results, used where the source throws an exception. */
module Wrappers {

  datatype Option<+T> = None | Some(value: T)

  /** `Failure(e)` stands for the exception the source throws; `Success(v)` for a normal return. */
  datatype Result<+T, +E> = Success(value: T) | Failure(error: E)
}
