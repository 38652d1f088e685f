/** Option and Result, the two failure-carrying shapes the model uses in place of
    null references and thrown exceptions. */
module Wrappers {

  /** A value that may be absent; stands in for a C# reference that may be null. */
  datatype Option<+T> = None | Some(value: T)

  /** The outcome of an operation that may throw: Success with a value, or Failure
      with what was thrown. */
  datatype Result<+T, +E> = Success(value: T) | Failure(error: E)
}
