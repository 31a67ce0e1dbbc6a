/** Failure-carrying wrappers shared by the modules of this model. */
module Outcomes {

  /** `None` stands for "no defined value": an out-of-range read in the source. */
  datatype Option<+T> = None | Some(value: T)

  /** The outcome of an operation that may throw. */
  datatype Result<+T, +E> = Ok(value: T) | Err(error: E)
}
