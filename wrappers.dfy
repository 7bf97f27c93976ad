/** Optional values, for inputs a constructor or coercion does not handle. */
module Wrappers {

  datatype Option<+T> = None | Some(value: T)
}
