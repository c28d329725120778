/** The optional value used for "a match or none" and "an address or none". */
module Wrappers {
  datatype Option<+T> = None | Some(value: T)
}
