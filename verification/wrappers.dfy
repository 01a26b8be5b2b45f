/** Optional values: a metadata field is either found or absent. */
module Wrappers {

  datatype Option<+T> = None | Some(value: T)
}
