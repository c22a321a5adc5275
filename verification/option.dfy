/** An optional value: Python's `None`, JavaScript's `undefined`, or an absent result. */
module Optional {
  datatype Option<+T> = None | Some(value: T)
}
