/** The usual result types. */
module Options {

  datatype Option<+T> = None | Some(value: T)
}
