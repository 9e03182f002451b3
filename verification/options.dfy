/** The optional value used wherever the machine may hold "no state". */
module Options {

  datatype Option<+T> = None | Some(value: T)
}
