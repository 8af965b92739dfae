/** The optional value returned by the UTF-8 decoder when its input is malformed. */
module Wrappers {

  datatype Option<+T> = None | Some(value: T)
}
