/** Optional values: a Java Optional, or a library call that may fail. */
module Wrappers {

  datatype Option<+T> = None | Some(value: T)

}
