/** Wrappers used to model Python's `None` and raised exceptions. */
module Wrappers {

  /** An optional value: `None` stands for metadata that is absent. */
  datatype Option<+T> = None | Some(value: T)

  /** The outcome of an operation that either returns a value or raises an error. */
  datatype Result<+R, +E> = Success(value: R) | Failure(error: E)
}
