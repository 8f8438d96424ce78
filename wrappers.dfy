/** Option and Result, for the lookups that can miss and the conversions that can throw. */
module Wrappers {

  datatype Option<+T> = None | Some(value: T)

  /** The two exceptions the grid codec can raise. */
  datatype Error = InvalidDirection | InvalidBitmask

  datatype Result<+T> = Ok(value: T) | Err(error: Error)
}
