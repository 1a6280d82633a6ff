/** Rust's `Option`, the all-or-nothing result of parsing. */
module Wrappers {

  datatype Option<+T> = None | Some(value: T)
}
