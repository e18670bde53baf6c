/** Option and Result wrappers shared by every module of the model. */
module Wrappers {
  /** A value that may be absent, as a null reference in the source. */
  datatype Option<T> = None | Some(value: T)

  /** A value or the message of an exception the source throws. */
  datatype Result<T> = Success(value: T) | Failure(error: string)
}
