/** The Some/None datatype used for the component's nullable state (`User | null`, `T | undefined`). */
module Wrappers {

  datatype Option<+T> = None | Some(value: T)
}
