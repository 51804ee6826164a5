/** A value that may be absent: null pointers, failed look-ups and unreadable bytes. */
module Options {
  datatype Option<+T> = None | Some(value: T)
}
