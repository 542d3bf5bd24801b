/** Small shared vocabulary: optional values and the byte type of file contents. */
module Common {

  datatype Option<+T> = None | Some(value: T)

  /** One byte of a file's contents. */
  type byte = bv8

  /** Go's `int64`. */
  newtype int64 = x: int | -0x8000_0000_0000_0000 <= x < 0x8000_0000_0000_0000

  const MaxInt64: int := 0x7FFF_FFFF_FFFF_FFFF
}
