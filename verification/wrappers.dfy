/** Failure-compatible wrappers shared by the modules of this model. */
module Wrappers {

  /** A possibly absent value; stands for a nullable reference. */
  datatype Option<+T> = None | Some(value: T)

  /** Either a value or the error the source would raise instead of returning one. */
  datatype Result<+R, +E> = Success(value: R) | Failure(error: E)
}
