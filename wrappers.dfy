/** The optional value used for lookups that may find nothing (a DOM query that
    returns null, an array `find` that returns undefined). */
module Wrappers {
  datatype Option<T> = None | Some(value: T)
}
