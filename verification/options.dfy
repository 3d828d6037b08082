/** A value that may be absent: the model's stand-in for `undefined` and `null`. */
module Options {

  datatype Option<+T> = None | Some(value: T)
}
