/** Optional values: a listing entry that does not parse, a missing page token. */
module Wrappers {
  datatype Option<+T> = None | Some(value: T)
}
