/** An optional value, for Python's `None` and for a widget that may have no input. */
module Optional {
  datatype Option<+T> = None | Some(value: T)
}
