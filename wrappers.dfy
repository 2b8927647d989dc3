/** Option and Result, shared by the model: Java's nullable references
    become Option, and a call that returns a value or throws becomes Result. */
module Wrappers {

  /** A Java reference that may be null. */
  datatype Option<+T> = None | Some(value: T)

  /** A call that either returns a value or throws an exception carrying a message. */
  datatype Result<+T> = Success(value: T) | Failure(error: string)
}
