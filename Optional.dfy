/** A value that may be absent: a missing JSON field, or a request that was never issued. */
module Optional {
  datatype Option<+T> = None | Some(value: T)
}
