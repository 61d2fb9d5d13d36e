/** The nullable values of the game: a latched direction, a vacated tail cell, an occupied list. */
module Optional {

  datatype Option<T> = None | Some(value: T)
}
