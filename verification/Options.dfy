module Options {
  datatype Option<V> = None | Some(value: V)
}
