/** The optional value used for "no selection" and "not found". */
module Wrappers {

  datatype Option<+T> = None | Some(value: T)
}
