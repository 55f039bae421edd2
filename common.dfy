/** Failure-carrying results shared by the modules of this model. */
module Outcomes {

  datatype Option<+T> = None | Some(value: T)

  /** The value of a call that either returns normally or raises the given error. */
  datatype Result<+T, +E> = Ok(value: T) | Err(error: E)
}
