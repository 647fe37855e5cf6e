/** The optional value that the Rust code spells `Option<T>`. */
module Wrappers {

  datatype Option<+T> = None | Some(value: T)
}
