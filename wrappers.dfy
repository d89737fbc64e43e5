/** Option and Result, used for nullable database values and for error returns. */
module Wrappers {

  /** A nullable value: `None` stands for SQL NULL / PHP NULL. */
  datatype Option<+T> = None | Some(value: T)

  /** Either a value or an error. */
  datatype Result<+R, +E> = Success(value: R) | Failure(error: E)
}
