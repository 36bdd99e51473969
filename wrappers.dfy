/** Failure-compatible value types shared by the whole model. */
module Wrappers {

  /** A value that may be absent: Go's nil pointer or nil slice. */
  datatype Option<+T> = None | Some(value: T)

  /** A value or the text of the Go error that replaced it. */
  datatype Result<+T> = Ok(value: T) | Err(error: string)
}
