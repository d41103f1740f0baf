/** Optional values, as std::optional and nullable pointers give them. */
module Options {
  datatype Option<+T> = None | Some(value: T)
}
