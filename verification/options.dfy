/** An optional value, used for the source's `None` results and for lookups that can miss. */
module Options {

  datatype Option<+T> = None | Some(value: T)

}
