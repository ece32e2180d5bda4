/** An optional value: a store that may be absent, a variable that may be unset. */
module Options {
  datatype Option<+T> = None | Some(value: T)
}
