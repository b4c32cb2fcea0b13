/** The value-or-nothing datatype the model uses for null pointers and kernel panics. */
module Options {
  datatype Option<+T> = None | Some(value: T)
}
