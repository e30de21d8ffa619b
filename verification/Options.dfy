/** A value that may be missing, as the source's optional fields and undefined results are. */
module Options {
  datatype Option<+T> = None | Some(value: T)
}
