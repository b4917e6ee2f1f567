/** Option and Result: the model's stand-ins for C# null and for thrown exceptions. */
module Wrappers {

  /** `None` plays the part of a C# null reference. */
  datatype Option<+T> = None | Some(value: T)

  /** `Failure` plays the part of an exception that escapes the operation. */
  datatype Result<+T, +E> = Success(value: T) | Failure(error: E)
}
