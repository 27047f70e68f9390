/** The optional value that Rust's `Option<T>` carries. */
module Wrappers {

  datatype Option<+T> = None | Some(value: T)
}
