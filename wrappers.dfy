/** The optional value that stands for a cell pandas reads as missing (NaN). */
module Wrappers {
  datatype Option<+T> = None | Some(value: T)
}
