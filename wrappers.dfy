/** The optional value used for absent uploads, absent files and "not found" searches. */
module Wrappers {
  datatype Option<+T> = None | Some(value: T)
}
