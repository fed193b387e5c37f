/** The optional value used for "no active piece", "no next piece" and
    "no piece for this player". */
module Wrappers {
  datatype Option<T> = None | Some(value: T)
}
