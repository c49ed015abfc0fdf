/** Failure-carrying datatypes shared by the product model and the store. */
module Wrappers {

  /** A value that may be absent; `None` stands for a C# `null` reference. */
  datatype Option<+T> = None | Some(value: T)

  /** The outcome of an action that returns a payload on success. */
  datatype Result<+T, +E> = Ok(value: T) | Err(error: E)

  /** The outcome of an action that returns no payload on success. */
  datatype Outcome<+E> = Pass | Fail(error: E)
}
