/** Optional values: a lookup that may find nothing returns None instead of null. */
module Wrappers {

  datatype Option<+T> = None | Some(value: T)
}
