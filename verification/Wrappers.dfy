/** The optional value every module of this project shares. */
module Wrappers {
  datatype Option<+T> = None | Some(value: T)
}
