/** Nullable references of the game: `None` stands for C#'s `null`. */
module Optional {

  datatype Option<+T> = None | Some(value: T)
}
