/** The optional value that Rust's `Result::ok()` leaves behind once an error is discarded. */
module Wrappers {

  datatype Option<+T> = None | Some(value: T)
}
