/** A value that may be missing: a null pointer, a failed read, a mutex that nobody has. */
module Options {

  datatype Option<T> = None | Some(value: T)
}
