/** Option, standing in for the nullable handles of the source. */
module Wrappers {

  datatype Option<+T> = None | Some(value: T)
}
