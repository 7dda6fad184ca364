/** The optional value used for a key a record may lack and for a parse that may fail. */
module Wrappers {

  datatype Option<+T> = None | Some(value: T)
}
