/**
  A value that may be absent: the null pointer, or the -1 of a search that found nothing.
  */
module Wrappers {
  datatype Option<T> = None | Some(value: T)
}
