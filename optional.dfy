/** A value that may be absent: the model's way of saying "the source gives no answer here". */
module Optional {
  datatype Option<+T> = None | Some(value: T)
}
