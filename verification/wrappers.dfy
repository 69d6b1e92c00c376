/** The optional-value type used wherever the game returns Rust's `Option`. */
module Wrappers {

  datatype Option<+T> = None | Some(value: T)
}
