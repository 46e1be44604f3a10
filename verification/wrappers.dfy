/** Optional values, standing for Rust's `Option` and Python's `None`-or-value. */
module Wrappers {

  datatype Option<+T> = None | Some(value: T)

}
