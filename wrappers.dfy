/** The optional value used for "present or absent" results throughout the model. */
module Wrappers {

  datatype Option<+T> = None | Some(value: T)
}
