/** The usual optional-value datatype, standing for Rust's `Option`. */
module Wrappers {

  datatype Option<+T> = None | Some(value: T)

}
