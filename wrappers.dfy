/** Success/failure wrappers shared by the other modules. */
module Wrappers {

  /** A value that may be absent. */
  datatype Option<+T> = None | Some(value: T)

  /** Either a result or the error (a Java exception) that replaced it. */
  datatype Result<+T, +E> = Ok(value: T) | Err(error: E)
}
