/** Wrappers used for the nullable pointers and the thrown errors of the plugin. */
module Wrappers {

  /** A value that may be absent: stands for a possibly-null pointer. */
  datatype Option<+T> = None | Some(value: T)

  /** Either a result or the error that the C++ code would throw. */
  datatype Result<+R, +E> = Success(value: R) | Failure(error: E)

  /** Either success or the error that the C++ code would throw, for `void` functions. */
  datatype Outcome<+E> = Pass | Fail(error: E)
}
