/** The usual optional value: a Go result that is either present or absent. */
module Options {

  datatype Option<+T> = None | Some(value: T)
}
