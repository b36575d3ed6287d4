/** Optional values: `None` stands for Java's empty `Optional` and for `null`. */
module Wrappers {
  datatype Option<+T> = None | Some(value: T)
}
