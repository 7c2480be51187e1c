/** The null-or-value results of the source. */
module Options {
  datatype Option<+T> = None | Some(value: T)
}
