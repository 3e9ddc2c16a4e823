/** The optional value used for JavaScript's `null`-or-value results. */
module Options {
  datatype Option<+T> = None | Some(value: T)
}
