/** The usual optional-value datatype, used for error results. */
module Options {
  datatype Option<+T> = None | Some(value: T)
}
