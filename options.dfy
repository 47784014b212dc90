/** The optional value used where the source has a nullable reference. */
module Options {
  datatype Option<T> = None | Some(value: T)
}
