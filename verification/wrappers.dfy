/** The optional value used for "found / not found" answers throughout the model. */
module Wrappers {

  datatype Option<+T> = None | Some(value: T)

}
