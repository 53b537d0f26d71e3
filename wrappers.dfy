/** Failure-carrying wrappers shared by every module of the model. */
module Wrappers {

  /** A value that may be absent: `None` stands for a missing setting or a result that is not a number. */
  datatype Option<+T> = None | Some(value: T)

  /** The value of an operation, or the error remixt raises instead. */
  datatype Result<+T, +E> = Ok(value: T) | Err(error: E)
}
