/** Optional values, standing for the C code's NULL-or-pointer fields and
    for the "did sscanf assign?" outcome of a conversion. */
module Wrappers {

  datatype Option<+T> = None | Some(value: T)
}
