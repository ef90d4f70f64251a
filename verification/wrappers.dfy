/** The optional value the Rust source writes as `Option<T>`. */
module Wrappers {

  datatype Option<+T> = None | Some(value: T)
}
