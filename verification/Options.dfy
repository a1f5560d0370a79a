/** A value that may be missing: a null pointer, an absent attribute, a call that failed. */
module Options {
  datatype Option<+T> = None | Some(value: T)
}
