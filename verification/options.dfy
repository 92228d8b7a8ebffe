/** The optional-value type that stands in for `std::optional` in the cursors. */
module Options {

  datatype Option<+T> = None | Some(value: T)
}
