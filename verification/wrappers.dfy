/** Optional values, used wherever the source returns "no match" or None. */
module Wrappers {

  datatype Option<+T> = None | Some(value: T)
}
