/** Option and Result datatypes shared by the other modules. A `Result` carries
    either a value or the error the source raises (a thrown exception, a failed
    `.at()` bounds check, an empty `std::optional` dereferenced with `.value()`). */
module Wrappers {

  datatype Option<+T> = None | Some(value: T)

  datatype Result<+T, +E> = Ok(value: T) | Err(error: E)

  /** The outcome of an operation that returns nothing but may fail. */
  datatype Outcome<+E> = Pass | Fail(error: E)
}
