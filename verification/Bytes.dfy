/** Bytes, and the order in which a word's bytes are stored. */
module Bytes {
  type byte = b: int | 0 <= b < 256

  datatype ByteOrder = Lsb | Msb

  /** `n` times the byte `c`. */
  function Fill(c: byte, n: nat): seq<byte> { seq(n, _ => c) }
}
