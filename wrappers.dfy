/** Optional values: the answer of an external service that may not come. */
module Wrappers {

  datatype Option<+T> = None | Some(value: T)
}
