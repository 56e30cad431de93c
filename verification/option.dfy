/** An optional value: a lookup or decode that may find nothing. */
module Options {
  datatype Option<+T> = None | Some(value: T)
}
