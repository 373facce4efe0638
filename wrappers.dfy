/** The `T | null` results of the chat server, as an option type. */
module Wrappers {
  datatype Option<+T> = None | Some(value: T)
}
