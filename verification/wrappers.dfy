/** Optional values, standing in for the null pointers the driver returns and receives. */
module Wrappers {

  datatype Option<+T> = None | Some(value: T)
}
