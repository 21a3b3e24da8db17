/** Optional values: a missing query parameter, a part that may be absent. */
module Wrappers {
  datatype Option<+T> = None | Some(value: T)
}
