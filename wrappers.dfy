/** The optional value used wherever the program works with a pointer that may be null. */
module Wrappers {

  datatype Option<+T> = None | Some(value: T)

}
