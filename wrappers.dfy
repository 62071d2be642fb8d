/** The optional value shared by both engines. */
module Wrappers {

  datatype Option<+T> = None | Some(value: T)
}
