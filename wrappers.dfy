/** Optional values, for Java's `Optional` and `null`. */
module Wrappers {

  datatype Option<+T> = None | Some(value: T)
}
