/** Option and Result, used for Java's null references and thrown exceptions. */
module Wrappers {

  /** A value that may be absent, as a Java reference that may be null. */
  datatype Option<+T> = None | Some(value: T)

  /** The value a Java method returns, or the exception it throws instead. */
  datatype Result<+R, +E> = Success(value: R) | Failure(error: E)
}
