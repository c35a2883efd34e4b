/** The value that may be missing, shared by the components. */
module Options {
  datatype Option<T> = None | Some(value: T)
}
