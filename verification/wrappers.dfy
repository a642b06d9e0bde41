/** The optional result of an iterator's `next()`. */
module Wrappers {

  datatype Option<+T> = None | Some(value: T)

}
