/** Optional values, used where the source signals "nothing" (a file that could not be opened). */
module Wrappers {
  datatype Option<+T> = None | Some(value: T)
}
