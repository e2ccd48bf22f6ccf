/** A value that may be absent: Java's null reference made explicit. */
module Options {
  datatype Option<T> = None | Some(value: T)
}
