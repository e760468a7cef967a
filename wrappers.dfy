/** An optional value, for the source's `T | null` and for "no result". */
module Wrappers {
  datatype Option<T> = None | Some(value: T)
}
