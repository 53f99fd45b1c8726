/** Optional values: Python's `None`, and SQL's NULL for a nullable column. */
module Wrappers {

  datatype Option<+T> = None | Some(value: T)

}
