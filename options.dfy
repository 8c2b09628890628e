/** The result of a modal dialog: `None` when the user cancelled it. */
module Options {
  datatype Option<+T> = None | Some(value: T)
}
