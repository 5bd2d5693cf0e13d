/** The conventional optional value: `None` stands for C#'s `null`. */
module Wrappers {
  datatype Option<+T> = None | Some(value: T)
}
