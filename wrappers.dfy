/** Small wrappers shared by the other modules. */
module Wrappers {

  /** A value that may be absent (JavaScript's `undefined`/`null` results). */
  datatype Option<+T> = None | Some(value: T)

  /** A value or the error that replaced it (a thrown `Error` in the source). */
  datatype Result<+T, +E> = Ok(value: T) | Err(error: E)
}
