/** The optional value used where the C++ helpers compare a position with `string::npos`. */
module Wrappers {

  datatype Option<+T> = None | Some(value: T)
}
