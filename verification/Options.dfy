/** A value or none: null pointers and failed allocations. */
module Options {
  datatype Option<T> = None | Some(value: T)
}
