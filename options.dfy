/** A value that may be absent, used for Python's `None`. */
module Options {

  datatype Option<+T> = None | Some(value: T)
}
