/** Small helper types shared by the modules of the model. */
module Common {

  /** A value that may be absent (Kotlin's nullable types). */
  datatype Option<T> = None | Some(value: T)
}
