/** The option type used for the source's `std::optional` members and lookups. */
module Wrappers {
  datatype Option<+T> = None | Some(value: T)
}
