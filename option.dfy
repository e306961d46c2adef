/** Optional values, standing in for the C code's NULL and -1 failure results. */
module Options {

  datatype Option<+T> = None | Some(value: T)
}
