/** Optional value, used for absent request fields and lookups. */
module Wrappers {

  datatype Option<+T> = None | Some(value: T)
}
