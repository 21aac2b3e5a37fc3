/** Option and Result values for the allocator's null pointers and exceptions. */
module Wrappers {

  /** A value that may be absent; `None` stands for a null pointer. */
  datatype Option<+T> = None | Some(value: T)

  /** The outcome of an operation that may throw; `Err` carries the exception kind. */
  datatype Result<+T, +E> = Ok(value: T) | Err(error: E)
}
