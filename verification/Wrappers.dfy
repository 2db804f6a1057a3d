/** Failure-compatible results shared by every component of the model. */
module Wrappers {

  datatype Option<+T> = None | Some(value: T)

  /** The outcome of an operation that may throw std::out_of_range. */
  datatype Outcome = Done | OutOfRange
}
