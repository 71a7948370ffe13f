/** Failure-carrying datatypes shared by the vector model and its findings. */
module Wrappers {

  /** A value that may be absent; `None` marks an outcome the C++ language leaves undefined. */
  datatype Option<+T> = None | Some(value: T)

  /** A value or the error a checked operation raises instead of returning it. */
  datatype Result<+T, +E> = Success(value: T) | Failure(error: E)
}
