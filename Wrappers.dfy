/** Option and Result values for the Python code's `None` and raised exceptions. */
module Wrappers {

  datatype Option<+T> = None | Some(value: T)

  /** `Err` stands for a raised exception; the caller's `try` or the program ends there. */
  datatype Result<+T, +E> = Ok(value: T) | Err(error: E)
}
