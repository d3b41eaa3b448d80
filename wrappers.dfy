/** Optional values, used for missing cells, absent page text and caught exception messages. */
module Wrappers {
  datatype Option<+T> = None | Some(value: T)
}
