// Optional values and error-or-value results shared by every module.
module Wrappers {
  datatype Option<T> = None | Some(value: T)

  /** The Python exceptions and error exits of the model carry a short reason. */
  datatype Result<T> = Ok(value: T) | Err(error: string)
}
