/** Failure-carrying result types shared by the analyses. */
module Wrappers {

  /** A value that may be absent: the model's stand-in for a nullable field,
      a failed lookup or a failed evaluation. */
  datatype Option<+T> = None | Some(value: T)

  /** Either a value or the exception that a computation would have thrown. */
  datatype Result<+R, +E> = Success(value: R) | Failure(error: E)
}
