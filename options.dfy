/** The optional value used for SQL NULL and for "no match". */
module Options {
  datatype Option<+T> = None | Some(value: T)
}
