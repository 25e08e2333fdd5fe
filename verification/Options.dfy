/** The value a script may not have. */
module Options {
  datatype Option<+T> = None | Some(value: T)
}
