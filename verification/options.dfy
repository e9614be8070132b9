/** A value, or none where the source returns nothing or gives up. */
module Options {
  datatype Option<T> = None | Some(value: T)
}
