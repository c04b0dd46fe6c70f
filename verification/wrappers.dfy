/** Optional values, standing in for the source's `base::Optional` and nullable pointers. */
module Wrappers {

  datatype Option<+T> = None | Some(value: T)
}
