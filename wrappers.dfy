/** Optional values: an absent hit, an idle drag session. */
module Wrappers {
  datatype Option<+T> = None | Some(value: T)
}
