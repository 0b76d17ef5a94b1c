/** Failure-carrying wrappers shared by the other modules. */
module Basics {

  /** A value that may be absent; used for Java's nullable references. */
  datatype Option<+T> = None | Some(value: T)

  /** Either a value or the error that ended the computation. */
  datatype Result<+T, +E> = Ok(value: T) | Err(error: E)
}
