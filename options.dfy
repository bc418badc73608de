/** The optional value the game uses where the source returns a value or `null`. */
module Options {

  datatype Option<+T> = None | Some(value: T)
}
