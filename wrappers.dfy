/** Optional values: a JavaScript value that may be `null`, or an I/O call that may fail. */
module Wrappers {

  datatype Option<+T> = None | Some(value: T)
}
