/** The optional value used wherever the program holds `None` or a value. */
module Options {
  datatype Option<+T> = None | Some(value: T)
}
