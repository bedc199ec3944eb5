/** Option and Result, standing in for Java's nullable references and thrown exceptions. */
module Wrappers {

  /** A value that may be absent: `None` plays the part of Java's `null`. */
  datatype Option<+T> = None | Some(value: T)

  /** The outcome of an operation that may fail instead of returning normally. */
  datatype Result<+R, +E> = Success(value: R) | Failure(error: E)
}
