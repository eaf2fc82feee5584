/** The optional value used for every `Option` returned by the Rust code. */
module Wrappers {

  datatype Option<+T> = None | Some(value: T)
}
