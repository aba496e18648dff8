/** A value that may be missing, like a null pointer or an empty std::optional. */
module Options {

  datatype Option<T> = None | Some(value: T)
}
