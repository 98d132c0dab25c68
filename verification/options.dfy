/** A value that may be absent: a JSON field that is missing, or a file
    that cannot be read. */
module Options {
  datatype Option<+T> = None | Some(value: T)
}
