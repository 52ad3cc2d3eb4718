/** Failure-carrying datatypes shared by the whole model. */
module Wrappers {

  /** An optional value; `None` also stands for Python's `float('inf')`
      "nothing seen yet" sentinel. */
  datatype Option<+T> = None | Some(value: T)

  /** A value or the error that the Python code would raise instead. */
  datatype Result<+R, +E> = Success(value: R) | Failure(error: E)
}
