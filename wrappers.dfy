/** An optional value: JavaScript's "a string, or undefined". */
module Wrappers {

  datatype Option<+T> = None | Some(value: T)
}
