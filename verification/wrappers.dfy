/** Failure-carrying results shared by the packer and the unpacker. */
module Wrappers {

  datatype Option<+T> = None | Some(value: T)

  /** Either the value an operation produced or the error it threw. */
  datatype Result<+T, +E> = Ok(value: T) | Err(error: E)
}
