/** Option and Result, used wherever the Java code returns null or throws. */
module Wrappers {

  datatype Option<+T> = None | Some(value: T)

  /** Either a value or the exception that the Java code would throw instead. */
  datatype Result<+T, +E> = Ok(value: T) | Err(error: E)
}
