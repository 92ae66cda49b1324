/** A value that may be missing: a null shared pointer or an empty `std::function`. */
module Options {
  datatype Option<T> = None | Some(value: T)
}
