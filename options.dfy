/** An optional value: the model's stand-in for a possibly-null shared pointer. */
module Options {
  datatype Option<T> = None | Some(value: T)
}
