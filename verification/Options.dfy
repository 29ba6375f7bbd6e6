/** The optional values used throughout: a C pointer that may be NULL is an `Option`. */
module Options {
  datatype Option<+T> = None | Some(value: T)
}
