/** A value that may be missing: nil, null or None. */
module Options {

  datatype Option<T> = None | Some(value: T)
}
