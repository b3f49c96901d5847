/** The optional value that the store returns where the source returns `undefined`. */
module Wrappers {

  datatype Option<+T> = None | Some(value: T)
}
