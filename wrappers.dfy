/** The optional value used for nullable columns. */
module Wrappers {

  datatype Option<T> = None | Some(value: T)
}
