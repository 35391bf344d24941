/** Optional values and error-carrying results, shared by every model in this project. */
module Wrappers {

  /** A Swift optional, a Kotlin nullable, or a JavaScript value that may be absent. */
  datatype Option<+T> = None | Some(value: T)

  /** The outcome of an operation that can throw. */
  datatype Result<+T, +E> = Ok(value: T) | Err(error: E)
}
