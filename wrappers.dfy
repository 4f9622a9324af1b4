/** Optional values: an absent file, a failed model call, no selection. */
module Wrappers {
  datatype Option<+T> = None | Some(value: T)
}
