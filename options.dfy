/** The optional value PHP expresses with `false`/`null` returns. */
module Options {
  datatype Option<+T> = None | Some(value: T)
}
