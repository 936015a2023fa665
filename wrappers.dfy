/** Option and Result values standing for Rust's `Option` and `io::Result`. */
module Wrappers {

  datatype Option<+T> = None | Some(value: T)

  /** `Failed` stands for any `io::Error`; its kind is not modelled. */
  datatype Result<+T> = Ok(value: T) | Failed
}
