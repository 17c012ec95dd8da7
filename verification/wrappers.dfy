/** Optional values and results with an error message, used throughout the model. */
module Wrappers {

  /** A nullable value: `None` stands for SQL NULL / JavaScript null or an absent field. */
  datatype Option<+T> = None | Some(value: T)

  /** The result of an operation that may throw; the error carries the message the caller sees. */
  datatype Result<+T> = Ok(value: T) | Err(message: string)
}
