/** Failure-carrying values shared by the whole model. */
module Wrappers {

  /** A .NET reference that may be null, or a lookup that may find nothing. */
  datatype Option<+T> = None | Some(value: T)

  /** The outcome of a .NET call that either returns a value or throws. The model never
      needs to know which exception was thrown, only that control left the call. */
  datatype Try<+T> = Ok(value: T) | Threw
}
