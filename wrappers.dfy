/** Optional values, used for page fetches that may fail and for pattern matches that may not exist. */
module Wrappers {

  datatype Option<+T> = None | Some(value: T)
}
