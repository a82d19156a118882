/** An optional value, used where the source passes a null pointer or returns zero for "nothing". */
module Options {
  datatype Option<+T> = None | Some(value: T)
}
