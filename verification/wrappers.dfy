/** Wrappers: `Option` stands for a Java reference that may be null,
    `Result` for a value or the exception thrown instead of it. */
module Wrappers {

  /** A possibly-null reference: `None` is Java's `null`. */
  datatype Option<+T> = None | Some(value: T)

  /** A returned value, or the exception raised in its place. */
  datatype Result<+R, +E> = Success(value: R) | Failure(error: E)
}
