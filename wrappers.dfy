/** Optional values, used where the source has "nothing to write" or "no message yet". */
module Wrappers {

  datatype Option<+T> = None | Some(value: T)
}
