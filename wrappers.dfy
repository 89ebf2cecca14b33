/** The optional value used for "the pattern did not match" and "no error". */
module Wrappers {
  datatype Option<+T> = None | Some(value: T)
}
