/** The result of what may have none. */
module Wrappers {
  datatype Option<T> = None | Some(value: T)
}
