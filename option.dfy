/** A value that may be absent: the model's stand-in for a Java method returning `null`
    or an empty `Optional`. */
module Optional {
  datatype Option<+T> = None | Some(value: T)
}
