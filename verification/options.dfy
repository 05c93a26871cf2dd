/** The optional value shared by every module: a SQL NULL, a JavaScript null or undefined. */
module Options {
  datatype Option<+T> = None | Some(value: T)
}
