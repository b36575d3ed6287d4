/** Java's fixed-width signed integers, as ranges of mathematical integers. */
module JavaTypes {
  /** A Java `byte`: a signed 8-bit integer. */
  type int8 = b: int | -0x80 <= b < 0x80

  /** A Java `long`: a signed 64-bit integer. */
  type int64 = x: int | -0x8000_0000_0000_0000 <= x < 0x8000_0000_0000_0000
}
