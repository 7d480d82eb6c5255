/** The optional value used across the model for "unset" slots and failed lookups. */
module Wrappers {

  datatype Option<+T> = None | Some(value: T)
}
