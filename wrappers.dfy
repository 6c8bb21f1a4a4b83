/** The optional-value datatype used wherever the kernel returns a Rust `Option`. */
module Wrappers {

  datatype Option<+T> = None | Some(value: T)
}
