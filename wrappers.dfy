/** The optional value the model uses for `null`, an absent query parameter
    and a lookup that finds no row. */
module Wrappers {
  datatype Option<+T> = None | Some(value: T)
}
