/** The outcome of an operation that may throw in the engine. */
module Wrappers {
  datatype Option<+T> = None | Some(value: T)

  datatype Result<+T> = Success(value: T) | Failure(error: string)
}
