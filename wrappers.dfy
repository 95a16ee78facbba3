/** Optional values, used for nullable fields and lookups that may find nothing. */
module Wrappers {
  datatype Option<+T> = None | Some(value: T)
}
