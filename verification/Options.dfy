/** The optional value shared by the models: absence is a case, never a null. */
module Options {
  datatype Option<+T> = None | Some(value: T)
}
