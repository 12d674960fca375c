/** Failure-carrying results shared by the compiler and the matcher. */
module Wrappers {

  /** `None` stands for the matcher's "rejected string" exception. */
  datatype Option<+T> = None | Some(value: T)

  datatype Result<+T, +E> = Ok(value: T) | Err(error: E)
}
