/** The absent-value and error-carrying datatypes shared by the modules of this model. */
module Outcomes {

  /** A value that may be absent (Python's `None`). */
  datatype Option<T> = None | Some(value: T)

  /** Either a value, or the error the Python code raises at that point. */
  datatype Result<T, E> = Success(value: T) | Failure(error: E)
}
