/** Failure-carrying result types shared by the hash map model. */
module Wrappers {

  /** A value that may be absent; `None` plays the part of the end-of-store sentinel. */
  datatype Option<T> = None | Some(value: T)

  /** The outcome of an operation that can fail with an error of type E. */
  datatype Result<T, E> = Ok(value: T) | Err(error: E)
}
