/** The optional value used where the gallery script holds `undefined`. */
module Wrappers {

  datatype Option<T> = None | Some(value: T)
}
