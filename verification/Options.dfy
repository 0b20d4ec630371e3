/** A value that may be missing, where the source uses a null pointer or a marker value. */
module Options {

  datatype Option<+T> = None | Some(value: T)
}
