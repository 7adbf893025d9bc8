/** Optional values: Python's `None` beside a value. */
module Options {
  datatype Option<+T> = None | Some(value: T)
}
