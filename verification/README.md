# CRC driver of the STM32G0 HAL, modelled in Dafny

This project models the driver for the STM32G0's CRC calculation unit
(`src/crc.rs`). The hardware does the CRC arithmetic. The driver decides
three things: which configuration registers to write, what to write to the
data register DR, and at which width and in which order. The model covers
exactly that layer:

- `Registers` holds the register block. It has the CR fields (`reset`,
  `polySize`, `revIn`, `revOut`), POL, INIT, and an append-only bus log of
  every register write. The `InputReverse` and `PolySize` enumerations are
  here too, with their two-bit field codes.
- `BigEndian` models `u32::from_be_bytes` and `u16::from_be_bytes`, with the
  unpacking that inverts them.
- `ByteFeed` models how the byte-slice digest splits its input. A greedy
  reference partition (`Partition`) is set against the driver's three loops
  (`Words`, `Halves`, `Singles`). `Serialize` turns a write log back into
  bytes.
- `CrcDriver` models the driver: `polynomial`, `seed`, `reverse_output`,
  `reverse_input`, `reset`, `release`, the five `Digest` impls and
  `CrcExt::constrain`. Every operation is a pure function from driver state
  to driver state.
- `ClockControl` models the two RCC bits that `constrain` touches.
- `Utf8` models the UTF-8 encoding that `str::as_bytes` exposes, with a
  one-character decoder that inverts it.
- `CrcProperties` holds lemmas that relate several operations to each other.

The value read back from DR is computed by the hardware. The model therefore
takes it as a parameter `dr: RegisterBlock -> bv32`, a function of the whole
register state (including the log of everything written so far). Every
digest returns `dr` of the state after its last write.

Four hardware behaviours are assumed:

- The RESET bit of CR always reads as 0, because the hardware clears it once
  the reset it requested is done (`Registers.ReadCr`). Every read-modify-write
  of CR starts from that read, so it never requests a reset unless it sets the
  bit itself. For example, `reverse_output` after `reset`, or on a freshly
  constrained block, requests no reset. The logged CR write carries the bit
  as written.
- Reading DR has no side effect, so reads are not logged. The word-slice
  digest and the 4-byte and 2-byte phases of the byte digest each read DR
  after every element, and those reads are discarded. Only the final read
  is returned.
- Pulsing the CRC reset line through RCC returns CR, POL and INIT to their
  reset values (`Registers.ResetConfig`: 32-bit polynomial 0x04C11DB7, INIT
  0xFFFFFFFF, no reversal, per the STM32G0x1 reference manual, RM0444). The
  reset appears in the CRC bus log as one `PeripheralReset` event, so `dr`
  can take it into account.
- The 16-bit and 8-bit stores into DR (the volatile pointer casts) are
  modelled as `W16` and `W8` writes to DR. The model records the width of
  each store, not its address.

## Model

| member | source | states |
|---|---|---|
| Registers.InputReverseCode | src/crc.rs:5-10 | each reversal mode has a REV_IN code (None 0, Byte 1, HalfWord 2, Word 3), and decoding the code gives the mode back |
| Registers.PolySizeCode | src/crc.rs:12-17 | each polynomial width has a POLYSIZE code (CRC32 0, CRC16 1, CRC8 2, CRC7 3), and decoding the code gives the width back |
| Registers.CodesAreBijective | src/crc.rs:5-17 | every two-bit field value names exactly one mode or width, so both encodings are bijections |
| BigEndian.BigEndianOrder | src/crc.rs:90-99 | `from_be_bytes` puts the first byte in the top bits and the last in the bottom bits, for words and halfwords alike (0x12 0x34 0x56 0x78 packs to 0x12345678) |
| BigEndian.WordBytesRoundTrip | src/crc.rs:90 | `from_be_bytes` puts the first byte in the top bits: unpacking the word gives the four bytes back in order |
| BigEndian.WordRoundTrip | src/crc.rs:90 | every 32-bit value is the big-endian reading of exactly one 4-byte group |
| BigEndian.HalfBytesRoundTrip | src/crc.rs:99 | the 16-bit big-endian packing gives its two bytes back in order |
| BigEndian.HalfRoundTrip | src/crc.rs:99 | every 16-bit value is the big-endian reading of exactly one 2-byte group |
| Registers.ReadCr | src/crc.rs:36-48 | the read half of every `cr.modify`: CR reads back with its stored fields and RESET as 0, whatever was stored |
| CrcDriver.ModifyCr | src/crc.rs:36-48 | the write half of `cr.modify`: the written value is logged as one CR write with RESET as written, CR then holds it with RESET cleared, and POL and INIT are untouched |
| CrcDriver.Reset | src/crc.rs:46-48 | one CR write with RESET set, and the selected configuration is unchanged |
| CrcDriver.Polynomial | src/crc.rs:24-30 | writes a reset request, then POL := poly, then CR with POLYSIZE := the width's code; the decoded configuration changes in width and polynomial only |
| CrcDriver.Seed | src/crc.rs:32-34 | one INIT write; only the seed of the decoded configuration changes, and CR is untouched |
| CrcDriver.ReverseOutput | src/crc.rs:36-38 | one CR write: CR as read, with RESET as 0, carrying the new REV_OUT bit; only the output reversal of the decoded configuration changes |
| CrcDriver.ReverseInput | src/crc.rs:40-44 | one CR write: CR as read, with RESET as 0, carrying the mode's REV_IN code; only the input reversal of the decoded configuration changes |
| CrcDriver.Release | src/crc.rs:50-52 | gives back the very register block the driver owned |
| ClockControl.SetClock | src/crc.rs:130 | sets the CRC clock-enable bit in one logged AHBENR write and leaves the reset bit alone |
| ClockControl.SetReset | src/crc.rs:131-132 | sets or clears the CRC reset bit in one logged AHBRSTR write and leaves the clock bit alone |
| Registers.ResetPeripheral | src/crc.rs:131-132 | after the reset pulse the block selects the reset configuration (CRC-32 polynomial 0x04C11DB7, INIT all ones, no reversal, RESET clear), and the reset is logged after everything before it |
| CrcDriver.Constrain | src/crc.rs:128-135 | leaves the CRC clock enabled and the reset line released, after logging enable, reset high, then reset low; the wrapped block is in its reset configuration, with the reset appended to its log |
| CrcDriver.DigestWord | src/crc.rs:59-64 | appends one 32-bit DR write of the value and returns DR read in the new state |
| CrcDriver.FeedWords | src/crc.rs:68 | running each word through the single-word digest appends exactly the words, in slice order, as 32-bit writes |
| CrcDriver.DigestWords | src/crc.rs:66-71 | the configuration is unchanged, the bus gains exactly the slice's 32-bit writes in order, and the result is one DR read taken after all of them |
| CrcDriver.FeedHalves | src/crc.rs:75-79 | appends exactly the halfwords, in slice order, as 16-bit writes |
| CrcDriver.DigestHalfwords | src/crc.rs:73-82 | the bus gains exactly the slice's 16-bit writes in order, and the result is one DR read taken after all of them |
| CrcDriver.FeedWordChunks | src/crc.rs:86-94 | the first loop appends one big-endian 32-bit write per complete 4-byte chunk, left to right, and nothing for the remainder |
| CrcDriver.FeedHalfChunks | src/crc.rs:95-103 | the second loop appends one big-endian 16-bit write per complete 2-byte chunk of what the first loop left |
| CrcDriver.FeedSingles | src/crc.rs:104-112 | the third loop appends one 8-bit write per remaining byte |
| CrcDriver.DigestBytes | src/crc.rs:84-116 | the three loops together append exactly the greedy partition of the input; configuration is unchanged, and the result is the DR read after the last write |
| CrcDriver.DigestStr | src/crc.rs:118-122 | digesting text gives the same state and result as digesting its UTF-8 bytes |
| ByteFeed.PhasesArePartition | src/crc.rs:86-112 | the driver's three phases (4-byte chunks, then 2-byte chunks of the remainder, then the bytes left over) emit exactly the greedy partition |
| ByteFeed.PhaseSizes | src/crc.rs:86-112 | for n bytes the three phases emit n/4, (n%4)/2 and (n%4)%2 writes, each phase at one width only |
| ByteFeed.AlignedPartition | src/crc.rs:84-112 | when the length is a multiple of 4, the whole partition comes from the word loop |
| ByteFeed.PartitionCount | src/crc.rs:86-112 | n bytes give exactly n/4 + (n%4)/2 + (n%4)%2 writes |
| ByteFeed.PartitionShape | src/crc.rs:86-112 | the first n/4 writes are 32-bit, the next (n%4)/2 are 16-bit and the rest 8-bit: a write's width is fixed by its position, so the widths are never interleaved |
| ByteFeed.PartitionWords | src/crc.rs:86-94 | word write i is the big-endian reading of bytes 4i..4i+3 |
| ByteFeed.PartitionHalf | src/crc.rs:95-103 | the halfword write, when there is one, comes right after the words and reads bytes 4(n/4) and 4(n/4)+1 big-endian |
| ByteFeed.PartitionLastByte | src/crc.rs:104-112 | for an odd length the last write is an 8-bit write of the last byte |
| ByteFeed.SerializePartition | src/crc.rs:84-112 | re-serialising the writes big-endian (4, 2 or 1 bytes per write) reproduces the input: every byte is written once, in order |
| ByteFeed.PartitionWellShaped | src/crc.rs:84-112 | every partition has the shape word*, halfword?, byte? |
| ByteFeed.PartitionSerialize | src/crc.rs:84-112 | every log of that shape is the partition of its own serialisation, so partitioning is a bijection from byte sequences onto those logs |
| Utf8.EncodeChar | src/crc.rs:120 | a character takes 1 to 4 bytes, announced by its lead byte and followed by continuation bytes. It takes 1 byte below U+0080, 2 below U+0800, 3 below U+10000 and 4 above (each an if-and-only-if), and a one-byte encoding is the character's code |
| Utf8.EncodeCharDecodes | src/crc.rs:120 | the payload bits of a character's bytes spell its code point: decoding the encoding gives the character back |
| Utf8.DecodeEncodeCode | src/crc.rs:120 | conversely, every shortest-form byte sequence is the encoding of the 21-bit value it carries, so encoding is a bijection from 21-bit values onto those sequences |
| Utf8.EncodeAsciiLength | src/crc.rs:120 | a string's bytes number exactly its characters iff the string is ASCII |
| Utf8.EncodeAsciiBytes | src/crc.rs:120 | an ASCII string's bytes are its characters' one-byte encodings, that is, their codes, in order |
| Utf8.EncodeAppend | src/crc.rs:120 | a string's bytes are its characters' encodings laid end to end |
| CrcProperties.DigestBytesRoundTrip | src/crc.rs:84-116 | the byte digest appends only data-register writes, and those writes re-serialise to the input |
| CrcProperties.DigestStrRoundTrip | src/crc.rs:118-122 | the text digest's data-register writes re-serialise to the string's UTF-8 bytes |
| CrcProperties.EmptyDigests | src/crc.rs:66-122 | an empty word, halfword, byte or text slice writes nothing and returns DR as read in the unchanged state |
| CrcProperties.SliceDigestLogs | src/crc.rs:66-82 | appended write i of a word (halfword) slice digest is a 32-bit (16-bit) DR write of element i, and there are as many writes as elements |
| CrcProperties.DigestWordIsSingletonSlice | src/crc.rs:59-71 | digesting one word equals digesting the one-element word slice |
| CrcProperties.DigestWordsAppend | src/crc.rs:66-71 | digesting word slices a and then b leaves the same state and returns the same value as digesting a + b |
| CrcProperties.DigestHalfwordsAppend | src/crc.rs:73-82 | the same for halfword slices |
| CrcProperties.AlignedBytesAreWords | src/crc.rs:84-94 | a byte slice whose length is a multiple of 4 is digested exactly like the word slice of its big-endian words |
| ByteFeed.BigEndianWordGroups | src/crc.rs:86-90 | the words read from the complete 4-byte groups are one per group, and each unpacks to its group's bytes |
| CrcProperties.PolynomialResetsFirst | src/crc.rs:24-30 | `polynomial` makes three writes: a reset request first, then the POL write, then a POLYSIZE write selecting the given width; only the first requests a reset |
| CrcProperties.SettersDoNotReset | src/crc.rs:32-44 | `reverse_input`, `reverse_output` and `seed` never request a reset, on any driver, including one whose stored CR still has RESET set |
| CrcProperties.NoResetAfterReset | src/crc.rs:36-48 | the reset request does not linger: after `reset` CR holds RESET clear and otherwise what it held, so `reverse_output` or `reverse_input` right after it writes CR with RESET clear (`polynomial` and `reset` request a new reset, as the source does) |
| CrcProperties.ReversalSettersCommute | src/crc.rs:36-44 | the two reversal setters touch disjoint fields, so their order does not matter |
| CrcProperties.SettersIdempotent | src/crc.rs:24-44 | repeating a setter with the same argument selects the same configuration as applying it once |
| CrcProperties.DigestsKeepConfig | src/crc.rs:59-122 | none of the five digests (word, word slice, halfword slice, byte slice, text) changes CR (RESET included), POL or INIT |
| CrcProperties.ConstrainReleaseRoundTrip | src/crc.rs:128-135 | `release` after `constrain` gives back the block in its reset configuration, with the old log plus the reset. `constrain` after `release` keeps the driver's log but not its configuration, so constraining twice leaves the same registers as once |
| CrcProperties.ConstrainForgetsConfig | src/crc.rs:36-38 | on a freshly constrained driver, `reverse_output(b)` writes CR as reset (32-bit polynomial, no input reversal, no reset request) with only REV_OUT = b, whatever the block held before |

## Left out

- The CRC arithmetic itself. The hardware performs it, so DR's value is the
  uninterpreted parameter `dr`.
- The bit positions of REV_IN, POLYSIZE, REV_OUT and RESET inside the 32-bit
  CR, and of the CRC bits inside AHBENR and AHBRSTR. The model keeps each
  field as a separately named value. The source writes fields only through
  the register-access layer, so the positions never appear in it.
- The ordering of the RCC writes against the CRC bus log. The two logs are
  kept apart, and the CRC reset is recorded once, as `PeripheralReset`, at
  the point where `constrain` wraps the block. The reset values of DR and IDR
  are left to `dr`.
- CrcDriver.Release: does not model Rust's move semantics. The released
  driver is a plain immutable value, so nothing in the model stops it from
  being used again.
- CrcDriver.DigestStr: a Rust `&str` stores its UTF-8 bytes. The model takes
  a Dafny `string` of Unicode scalar values and computes those bytes with
  `Utf8.Encode`. Decoding is modelled one character at a time
  (`Utf8.DecodeChar`), only to pin the encoding down; string decoding and
  the rejection of invalid byte sequences are not modelled.
- The ADC driver and the example program `examples/adc.rs`. The example does
  console I/O, blocking delays and floating-point voltage conversion, and the
  ADC driver is not part of this model.
- Other RCC and CRC registers (IDR, other AHB clock bits).
