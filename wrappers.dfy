/** Option and Result, used wherever the pipeline has a missing value or an error path. */
module Wrappers {

  /** A value that may be absent: a missing cell, a NaN, a failed parse. */
  datatype Option<+T> = None | Some(value: T)

  /** A value or the message the script exits with. */
  datatype Result<+T> = Ok(value: T) | Err(message: string)
}
