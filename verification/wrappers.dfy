/** The optional result used where the source may return `null` or throw. */
module Wrappers {

  datatype Option<+T> = None | Some(value: T)
}
