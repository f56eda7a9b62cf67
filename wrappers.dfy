/** Failure-compatible helper datatypes shared by the other modules. */
module Wrappers {

  /** An attribute or element that may be absent. */
  datatype Option<+T> = None | Some(value: T)

  /** The outcome of a step that may raise. */
  datatype Result<+T, +E> = Ok(value: T) | Err(error: E)
}
