/** Optional values: a DataFrame cell that may hold NaN, a high-water mark that may be None. */
module Wrappers {

  datatype Option<+T> = None | Some(value: T)
}
