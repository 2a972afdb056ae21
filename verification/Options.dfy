/** A value or none: the model's form of a pointer that may be null. */
module Options {
  datatype Option<T> = None | Some(value: T)
}
