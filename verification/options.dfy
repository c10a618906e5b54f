/** The usual optional value, for C's null pointers and -1 results. */
module Options {
  datatype Option<+T> = None | Some(value: T)
}
