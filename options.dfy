/** The optional value used wherever a reader can fail. */
module Options {
  datatype Option<+T> = None | Some(value: T)
}
