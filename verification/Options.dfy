/** A value, or none; a null pointer is none. */
module Options {

  datatype Option<T> = None | Some(value: T)
}
