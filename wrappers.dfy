/** Python's "a value or None", used for every result the scripts may withhold. */
module Wrappers {

  datatype Option<+T> = None | Some(value: T)
}
