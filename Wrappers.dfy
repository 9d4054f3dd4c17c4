/** The optional value a scanner returns when a pattern does or does not match. */
module Wrappers {

  datatype Option<+T> = None | Some(value: T)
}
