/** Failure-compatible result types shared by the modules of this model. */
module Wrappers {

  /** A value that may be absent, such as the file picked in an upload form. */
  datatype Option<+T> = None | Some(value: T)

  /** Either a value or the reason an operation refused to produce one. */
  datatype Result<+R, +E> = Success(value: R) | Failure(error: E)
}
