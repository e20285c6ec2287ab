/** Java's nullable references and thrown exceptions, as values. */
module Wrappers {

  /** A reference that may be null: None stands for Java's null. */
  datatype Option<+T> = None | Some(value: T)

  /** The outcome of a call that either returns a value or throws. */
  datatype Result<+T, +E> = Success(value: T) | Failure(error: E)
}
