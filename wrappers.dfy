/** Option and Result: Java's null references and thrown exceptions, as values. */
module Wrappers {

  /** A reference that may be null. */
  datatype Option<+T> = None | Some(value: T)

  /** A call that either returns a value or throws an exception of type E. */
  datatype Result<+T, +E> = Success(value: T) | Failure(error: E)
}
