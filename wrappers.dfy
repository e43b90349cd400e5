/** Optional values: the nullable `Integer`, `Float` and `Optional<T>` of the source. */
module Wrappers {
  datatype Option<+T> = None | Some(value: T)
}
