/** The optional value used wherever the source returns a pointer that may be null. */
module Options {
  datatype Option<+T> = None | Some(value: T)
}
