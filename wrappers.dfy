/** Option and Result, the two failure-carrying shapes the Rust code returns. */
module Wrappers {

  datatype Option<+T> = None | Some(value: T)

  /** `Err` also stands for a panic (`unwrap`, `expect`, `panic!`) that aborts a macro expansion. */
  datatype Result<+T, +E> = Ok(value: T) | Err(error: E)
}
