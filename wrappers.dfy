/** Optional values, for the `None` a dictionary lookup with a default can give. */
module Wrappers {
  datatype Option<+T> = None | Some(value: T)
}
