/** Octets, and the few named characters the HTTP code compares against. */
module Bytes {
  type Byte = b: int | 0 <= b < 256 witness 0

  const HT: Byte := 9
  const LF: Byte := 10
  const CR: Byte := 13
  const SP: Byte := 32
  const DEL: Byte := 127
  const COLON: Byte := 58
}
