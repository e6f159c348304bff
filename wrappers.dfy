/** The optional result of decoding one record. */
module Wrappers {
  datatype Option<+T> = None | Some(value: T)
}
