/** The optional value used wherever the source yields `null` or `undefined`. */
module Options {
  datatype Option<+T> = None | Some(value: T)
}
