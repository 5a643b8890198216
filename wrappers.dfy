/** Failure-carrying wrappers shared by the modules of this model. */
module Wrappers {

  datatype Option<T> = None | Some(value: T)

  /** The outcome of an operation that the source lets raise an exception. */
  datatype Result<T, E> = Ok(value: T) | Err(error: E)
}
