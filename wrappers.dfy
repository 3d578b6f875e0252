/** Small value wrappers shared by the other modules. */
module Wrappers {

  /** A value that may be absent: stands for a nullable reference. */
  datatype Option<+T> = None | Some(value: T)

  /** The result of an operation that may throw: `Err` carries the exception's name. */
  datatype Result<+T> = Ok(value: T) | Err(exception: string)
}
