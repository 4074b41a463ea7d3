/** The Some/None datatype used wherever the plugin silently skips an event. */
module Wrappers {

  datatype Option<+T> = None | Some(value: T)
}
