/** The optional-value datatype used throughout the model, standing in for
    Rust's `Option<T>`. */
module Wrappers {

  datatype Option<+T> = None | Some(value: T)
}
