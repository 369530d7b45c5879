/** The optional value used throughout the model, in the role of Rust's `Option`. */
module Wrappers {
  datatype Option<+T> = None | Some(value: T)
}
