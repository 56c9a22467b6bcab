/** The option type used throughout the model in place of C++ `std::optional`,
    null pointers and sentinel ids. */
module Wrappers {
  datatype Option<+T> = None | Some(value: T)
}
