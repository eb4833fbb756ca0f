/**
 The optional value used wherever a search, a match or a filter may come up empty.
 */
module Wrappers {
  datatype Option<+T> = None | Some(value: T)
}
