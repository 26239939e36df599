/** The optional value used where the source returns `Option<T>`. */
module Wrappers {

  datatype Option<+T> = None | Some(value: T)
}
