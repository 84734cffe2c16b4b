/** A value that may be absent: a Java reference that may be null, or a search that may find nothing. */
module Wrappers {
  datatype Option<T> = None | Some(value: T)
}
