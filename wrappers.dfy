/** Optional values, for the results the C code signals with NULL or with a
    fatal error on an empty structure. */
module Wrappers {

  datatype Option<+T> = None | Some(value: T)
}
