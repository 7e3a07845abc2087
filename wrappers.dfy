/** The optional value that Rust's `Option` and the `Ok`/`Err` of a parse
    become in this model: a parse either yields a value or fails. */
module Wrappers {

  datatype Option<+T> = None | Some(value: T)
}
