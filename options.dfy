/** The optional value used for "no match", "parse failed" and "no override". */
module Options {
  datatype Option<+T> = None | Some(value: T)
}
