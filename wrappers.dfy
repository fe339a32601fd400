/** The optional value used wherever the server passes a pointer that may be NULL. */
module Wrappers {

  datatype Option<+T> = None | Some(value: T)

}
