/** An optional value: Go's nil pointers, and its pairs of a value and a flag. */
module Options {
  datatype Option<T> = None | Some(value: T)
}
