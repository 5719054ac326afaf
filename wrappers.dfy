/** Optional values: a JSON field or form field that may be absent, a nullable column. */
module Wrappers {

  datatype Option<+T> = None | Some(value: T)
}
