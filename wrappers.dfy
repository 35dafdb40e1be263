/** Option and Result, standing for Java's `null` results and thrown exceptions. */
module Wrappers {

  /** `None` is Java's `null`. */
  datatype Option<+T> = None | Some(value: T)

  /** `Thrown` is a Java method ending with an exception instead of a value. */
  datatype Result<+T, +E> = Ok(value: T) | Thrown(error: E)
}
