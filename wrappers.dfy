/** Optional values, used for the active-watcher slot and for pattern results. */
module Wrappers {

  datatype Option<+T> = None | Some(value: T)
}
