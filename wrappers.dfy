/** The absence-or-value result that the list's queries return (Rust's `Option`). */
module Wrappers {
  datatype Option<T> = None | Some(value: T)
}
