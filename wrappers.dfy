/** Optional values, for "a text to display, or nothing" and "a value, or the call threw". */
module Wrappers {

  datatype Option<+T> = None | Some(value: T)
}
