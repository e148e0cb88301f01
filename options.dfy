module Options {
  datatype Option<T> = None | Some(value: T)

  /** u8. */
  newtype Byte = x: int | 0 <= x < 256
}
