/** Byte values, the alphabet of every automaton in the system. */
module Bytes {
  type Byte = b: int | 0 <= b < 256

  const MinByte: Byte := 0
  const MaxByte: Byte := 255
}
