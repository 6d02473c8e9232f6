/** Optional values; `None` also stands for the failure of an operation that raises in the source. */
module Options {

  datatype Option<+T> = None | Some(value: T)
}
