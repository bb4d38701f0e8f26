/** Failure-compatible result types shared by the model. */
module Wrappers {

  /** A value that may be absent: Java's nullable references. */
  datatype Option<+T> = None | Some(value: T)

  /** A computation that either yields a value or fails with a message (a thrown exception). */
  datatype Result<+T> = Ok(value: T) | Err(message: string)
}
