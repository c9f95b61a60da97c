/** Integer widths of the microcontroller framework, and an optional value. */
module BaseTypes {

  /** An unsigned 16-bit integer (the framework's TUint_2). */
  type U16 = x: int | 0 <= x <= 0xFFFF

  /** Number of bits in a byte. */
  const BitsInByte: nat := 8

  datatype Option<T> = None | Some(value: T)
}
