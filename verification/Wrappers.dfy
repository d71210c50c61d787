/// A value that may be missing: a Rust `Option`.

module Wrappers {
  datatype Option<+T> = None | Some(value: T)
}
