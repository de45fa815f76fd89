/** A value that may be missing: Python's `None` for the lazily built fields,
    and the failure of a decoder. */
module Optional {
  datatype Option<+T> = None | Some(value: T)
}
