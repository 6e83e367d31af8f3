/** Optional values: a title tag or an href attribute that may be absent. */
module Wrappers {

  datatype Option<+T> = None | Some(value: T)
}
