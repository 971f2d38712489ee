/** Optional values, used for record fields that JavaScript leaves unset. */
module Options {

  datatype Option<+T> = None | Some(value: T)
}
