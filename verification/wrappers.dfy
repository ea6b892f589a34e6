/** An optional value, shared by the model. */
module Wrappers {

  /** A value that may be absent: a list index or substring that the Kotlin
      code reads and that would throw when it does not exist. */
  datatype Option<+T> = None | Some(value: T)
}
