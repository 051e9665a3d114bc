/** Option and Result, for the source's null references and thrown exceptions. */
module Wrappers {

  /** `None` stands for a C# `null` reference. */
  datatype Option<+T> = None | Some(value: T)

  /** `Failure` stands for an exception the operation raises instead of returning. */
  datatype Result<+T, +E> = Success(value: T) | Failure(error: E)
}
