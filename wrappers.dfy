/** Optional values, for lookups that can miss and for capabilities that may be absent. */
module Wrappers {

  datatype Option<+T> = None | Some(value: T)
}
