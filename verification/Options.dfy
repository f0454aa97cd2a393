/** A value or its absence: Go's nil pointers and (value, ok) results, Python's None. */
module Options {
  datatype Option<T> = None | Some(value: T)
}
