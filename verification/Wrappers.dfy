/** The optional value used wherever the program returns one. */
module Wrappers {

  datatype Option<+T> = None | Some(value: T)
}
