/** The optional value used throughout the model for Python's `None`. */
module Optional {
  datatype Option<T> = None | Some(value: T)
}
