/** Optional values, standing for Python results that may be missing or raise. */
module Wrappers {
  datatype Option<T> = None | Some(value: T)
}
