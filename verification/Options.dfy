/** Optional values: a pointer that may be NULL, or an absent entry. */
module Options {

  datatype Option<+T> = None | Some(value: T)
}
