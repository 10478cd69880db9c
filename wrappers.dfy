/** Option and Result types used for the null returns and the thrown
    exceptions of the modelled C# code. */
module Wrappers {

  /** A value or nothing; `None` stands for a C# `null` return. */
  datatype Option<+T> = None | Some(value: T)

  /** A value, or the error that the C# code would have thrown instead. */
  datatype Result<+R, +E> = Success(value: R) | Failure(error: E)
}
