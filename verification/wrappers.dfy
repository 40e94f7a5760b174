/** Optional values, used for "the first match, if any". */
module Wrappers {

  datatype Option<+T> = None | Some(value: T)
}
