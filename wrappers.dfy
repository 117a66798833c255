/** Option and Result values for the optional arguments and the assertion failures of the model. */
module Wrappers {

  datatype Option<T> = None | Some(value: T)

  /** `Err` stands for a Python `AssertionError` (or other exception) raised by the source. */
  datatype Result<T> = Ok(value: T) | Err(message: string)
}
