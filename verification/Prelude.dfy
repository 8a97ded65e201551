/** Machine words, result types and the few constants every component shares. */
module Prelude {

  /** A 64-bit unsigned word. An unchecked addition of the source becomes a plain `+` assigned
      to this type, so that its absence of overflow is a proof obligation. */
  type U64 = x: int | 0 <= x < 0x1_0000_0000_0000_0000

  type U32 = x: int | 0 <= x < 0x1_0000_0000

  type U16 = x: int | 0 <= x < 0x1_0000

  type Byte = x: int | 0 <= x < 256

  const U64_LIMIT: int := 0x1_0000_0000_0000_0000
  const U32_LIMIT: int := 0x1_0000_0000

  datatype Option<+T> = None | Some(value: T)

  datatype Result<+T, +E> = Ok(value: T) | Err(error: E)

  function Min(a: int, b: int): int { if a < b then a else b }

  function Max(a: int, b: int): int { if a < b then b else a }

  /** The end of the 4 KiB page before which an address lies. */
  function RoundedUp(a: int): int { (a + 4095) / 4096 * 4096 }

  /** Half-open ranges meet; the test every overlap check of the source uses. */
  predicate RangesOverlap(aStart: int, aEnd: int, bStart: int, bEnd: int) {
    aStart < bEnd && bStart < aEnd
  }
}
