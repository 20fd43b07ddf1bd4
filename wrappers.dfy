/** Optional values, for "no record" results and unset schema slots. */
module Wrappers {
  datatype Option<+T> = None | Some(value: T)
}
