/** Optional values: a JSON field that may be absent, a nullable reference. */
module Wrappers {

  datatype Option<+T> = None | Some(value: T)
}
