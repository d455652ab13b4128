/** Option and Result values standing in for Python's `None` and for raised exceptions. */
module Wrappers {

  datatype Option<+T> = None | Some(value: T)

  /** `Err` carries the text of the exception that the Python code would have raised. */
  datatype Result<+T> = Ok(value: T) | Err(error: string)
}
