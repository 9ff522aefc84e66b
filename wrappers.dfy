/** The optional value used for a letter box that may be empty and for a loop that may stop early. */
module Wrappers {

  datatype Option<T> = None | Some(value: T)
}
