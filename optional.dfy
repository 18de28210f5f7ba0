/** An optional value: stands for a reference that may be `null`. */
module Optional {
  datatype Option<T> = None | Some(value: T)
}
