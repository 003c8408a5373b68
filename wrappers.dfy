/** The optional value used where the server either produces a result or fails. */
module Wrappers {

  datatype Option<+T> = None | Some(value: T)
}
