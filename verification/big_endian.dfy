/** Big-endian packing of bytes into the 32-bit and 16-bit values that the
    CRC driver writes to the data register (`u32::from_be_bytes`,
    `u16::from_be_bytes`), and the unpacking that undoes it. */
module BigEndian {

  /** `u32::from_be_bytes([b0, b1, b2, b3])`: the first byte is the most significant. */
  function WordFromBytes(b0: bv8, b1: bv8, b2: bv8, b3: bv8): bv32
  {
    ((b0 as bv32) << 24) | ((b1 as bv32) << 16) | ((b2 as bv32) << 8) | (b3 as bv32)
  }

  /** `w.to_be_bytes()`: the four bytes of `w`, most significant first. */
  function WordToBytes(w: bv32): (r: seq<bv8>)
    ensures |r| == 4
  {
    [(w >> 24) as bv8, ((w >> 16) & 0xFF) as bv8, ((w >> 8) & 0xFF) as bv8, (w & 0xFF) as bv8]
  }

  /** `u16::from_be_bytes([b0, b1])`: the first byte is the most significant. */
  function HalfFromBytes(b0: bv8, b1: bv8): bv16
  {
    ((b0 as bv16) << 8) | (b1 as bv16)
  }

  /** `h.to_be_bytes()`: the two bytes of `h`, most significant first. */
  function HalfToBytes(h: bv16): (r: seq<bv8>)
    ensures |r| == 2
  {
    [(h >> 8) as bv8, (h & 0xFF) as bv8]
  }

  /** The byte order of the packing: the first byte is the top byte of the
      result and the last byte the bottom one. */
  lemma BigEndianOrder(b0: bv8, b1: bv8, b2: bv8, b3: bv8)
    ensures var w := WordFromBytes(b0, b1, b2, b3);
      && w >> 24 == b0 as bv32 && (w >> 16) & 0xFF == b1 as bv32
      && (w >> 8) & 0xFF == b2 as bv32 && w & 0xFF == b3 as bv32
    ensures var h := HalfFromBytes(b0, b1); h >> 8 == b0 as bv16 && h & 0xFF == b1 as bv16
    ensures WordFromBytes(0x12, 0x34, 0x56, 0x78) == 0x1234_5678 && HalfFromBytes(0xAB, 0xCD) == 0xABCD
  {
  }

  /** Packing four bytes and unpacking the word gives the bytes back, in order:
      `b0` lands in bits 31..24 and `b3` in bits 7..0. */
  lemma WordBytesRoundTrip(b0: bv8, b1: bv8, b2: bv8, b3: bv8)
    ensures WordToBytes(WordFromBytes(b0, b1, b2, b3)) == [b0, b1, b2, b3]
  {
  }

  /** Unpacking a word and packing its bytes again gives the word back, so
      every 32-bit value is the big-endian reading of exactly one 4-byte group. */
  lemma WordRoundTrip(w: bv32)
    ensures var b := WordToBytes(w); WordFromBytes(b[0], b[1], b[2], b[3]) == w
  {
  }

  /** The 16-bit counterpart of `WordBytesRoundTrip`. */
  lemma HalfBytesRoundTrip(b0: bv8, b1: bv8)
    ensures HalfToBytes(HalfFromBytes(b0, b1)) == [b0, b1]
  {
  }

  /** The 16-bit counterpart of `WordRoundTrip`. */
  lemma HalfRoundTrip(h: bv16)
    ensures var b := HalfToBytes(h); HalfFromBytes(b[0], b[1]) == h
  {
  }
}
