/** The usual optional-value datatype, used for the sort state and for the row-selection callback. */
module Options {

  datatype Option<+T> = None | Some(value: T)
}
