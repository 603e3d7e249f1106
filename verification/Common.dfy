/** What the other modules share. */
module Common {
  datatype Option<+T> = None | Some(value: T)

  /** Unsigned 64-bit numbers are below this. */
  const TWO_TO_64: nat := 0x1_0000_0000_0000_0000
}
