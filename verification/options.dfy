/** The optional result of a lookup: a null pointer becomes `None`. */
module Options {

  datatype Option<+T> = None | Some(value: T)

}
