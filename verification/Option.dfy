/** The value-or-nothing results that the C++ code reports as `bool` plus an out-parameter. */
module Options {
  datatype Option<+T> = None | Some(value: T)
}
