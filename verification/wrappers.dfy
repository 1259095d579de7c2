/** Failure-carrying datatypes used wherever the merger throws or logs and gives up. */
module Wrappers {

  /** `None` stands for "nothing produced": the source caught an error and only logged it. */
  datatype Option<+T> = None | Some(value: T)

  /** A value or the reason the source threw. */
  datatype Result<+R, +E> = Success(value: R) | Failure(error: E)
}
