/** Failure-carrying result types shared by every module of the model.
    Errors carry the human-readable message the backend raises. */
module Wrappers {

  datatype Option<+T> = None | Some(value: T)

  /** A value or the message of the validation error that replaced it. */
  datatype Result<+T> = Ok(value: T) | Err(error: string)

  /** A check that either passes or fails with a message. */
  datatype Outcome = Pass | Fail(error: string)
}
