/** The optional value that the parser returns (Rust's `Option`). */
module Wrappers {

  datatype Option<+T> = None | Some(value: T)
}
