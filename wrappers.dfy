/** Result type for the error returns of the converter. */
module Wrappers {
  datatype Option<+T> = None | Some(value: T)

  /** A value, or an error message as the source's `error` would carry it. */
  datatype Result<+T> = Ok(value: T) | Err(msg: string)
}
