/** The usual optional value, used for the outcome of the wall-kick search. */
module Options {
  datatype Option<+T> = None | Some(value: T)
}
