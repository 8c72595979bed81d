/** Optional values and Ruby's exceptional outcomes, shared by every module. */
module Wrappers {

  datatype Option<T> = None | Some(value: T)

  /** The two Ruby exceptions the modelled code can raise on its own. */
  datatype Raise = NoMethodError | ArgumentError

  /** A call that either returns a value or raises. */
  datatype Outcome<T> = Returned(value: T) | Raised(error: Raise)
}
