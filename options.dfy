/** An optional value: a hovered circle's id, a position found by id. */
module Options {
  datatype Option<T> = None | Some(value: T)
}
