/** The optional value used for a component's character. */
module Wrappers {

  datatype Option<+T> = None | Some(value: T)
}
