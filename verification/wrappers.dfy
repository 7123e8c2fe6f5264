/** Optional values, for the fields and arguments that Python lets be None. */
module Wrappers {

  datatype Option<+T> = None | Some(value: T)
}
