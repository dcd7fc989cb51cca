/** The one wrapper type shared by the modules: a value that may be absent. */
module Optional {
  datatype Option<+T> = None | Some(value: T)
}
