/** The optional value used for the source's `undefined`-able links, values and arguments. */
module Wrappers {

  datatype Option<+T> = None | Some(value: T)
}
