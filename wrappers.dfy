/** Option: a value that may be missing (a URL that does not parse, a storage entry that is absent). */
module Wrappers {
  datatype Option<+T> = None | Some(value: T)
}
