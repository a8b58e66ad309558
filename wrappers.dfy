/** Option and Result, the two failure-carrying shapes the Rust code returns everywhere. */
module Wrappers {

  datatype Option<+T> = None | Some(value: T)

  /** `anyhow::Result<T>`: the error is kept as its message. */
  datatype Result<+T> = Ok(value: T) | Err(error: string)

  /** The unit value `()`, for `Result<()>`. */
  datatype Unit = Unit
}
