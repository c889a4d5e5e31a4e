/** Failure-carrying results shared by the other modules. */
module Wrappers {

  datatype Option<T> = None | Some(value: T)

  /** The outcome of an operation that raises in the original program. */
  datatype Result<T, E> = Ok(value: T) | Err(error: E)
}
