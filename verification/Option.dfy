/** The optional value used wherever the scripts return `None`. */
module Options {
  datatype Option<+T> = None | Some(value: T)
}
