/** The optional result that stands for a `T*` answer which may be null. */
module Wrappers {
  datatype Option<T> = None | Some(value: T)
}
