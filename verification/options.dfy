/** The optional value used for "the row may be absent" and "the field may be missing". */
module Options {

  datatype Option<+T> = None | Some(value: T)
}
