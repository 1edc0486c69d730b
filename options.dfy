/** The result of a lookup that may find nothing (the source's `null`). */
module Options {
  datatype Option<T> = None | Some(value: T)
}
