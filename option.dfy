/** A value that may be absent: an optional field of a record, an optional argument, or a
    result that is not a valid date. */
module Optional {
  datatype Option<T> = None | Some(value: T)
}
