/** An optional value: the `None` / `null` / absent field of the modelled code. */
module Wrappers {
  datatype Option<+T> = None | Some(value: T)
}
