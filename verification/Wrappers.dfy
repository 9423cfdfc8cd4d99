/** Optional values and the three ways a server operation can end. */
module Wrappers {

  datatype Option<+T> = None | Some(value: T)

  /** How a call that touches storage ends: it returns, it throws, or the machine stops under it. */
  datatype Outcome<+T> = Returned(value: T) | Threw | Crashed
}
