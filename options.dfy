/** Optional values: a JSON field that may be absent, a reply that may not have come. */
module Options {

  datatype Option<+T> = None | Some(value: T)
}
