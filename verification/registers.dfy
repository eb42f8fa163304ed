/** The CRC unit's register block as the driver sees it: the control register
    CR (reset bit, polynomial-size field, input-reversal field, output-reversal
    bit), the polynomial register POL, the initial-value register INIT, and an
    append-only log of every register write, in bus order. The data register DR
    is represented only by the writes made to it; what it reads back is decided
    by the hardware and is a parameter of the digest operations. */
module Registers {

  /** Granularity of the hardware's input bit reversal (`InputReverse`). */
  datatype InputReverse = None | Byte | HalfWord | Word

  /** Width of the configured polynomial (`PolySize`). */
  datatype PolySize = Crc32 | Crc16 | Crc8 | Crc7

  /** The value of the two-bit REV_IN field that selects `m`. */
  function InputReverseCode(m: InputReverse): (code: bv2)
    ensures InputReverseOf(code) == m
  {
    match m
    case None => 0
    case Byte => 1
    case HalfWord => 2
    case Word => 3
  }

  /** The reversal mode a REV_IN field value selects. */
  function InputReverseOf(code: bv2): InputReverse
  {
    if code == 0 then None
    else if code == 1 then Byte
    else if code == 2 then HalfWord
    else Word
  }

  /** The value of the two-bit POLYSIZE field that selects `s`. */
  function PolySizeCode(s: PolySize): (code: bv2)
    ensures PolySizeOf(code) == s
  {
    match s
    case Crc32 => 0
    case Crc16 => 1
    case Crc8 => 2
    case Crc7 => 3
  }

  /** The polynomial width a POLYSIZE field value selects. */
  function PolySizeOf(code: bv2): PolySize
  {
    if code == 0 then Crc32
    else if code == 1 then Crc16
    else if code == 2 then Crc8
    else Crc7
  }

  /** Every field value names exactly one mode, so the two encodings are
      bijections between the enumerations and the two-bit fields. */
  lemma CodesAreBijective(a: bv2, b: bv2)
    ensures InputReverseCode(InputReverseOf(a)) == a
    ensures PolySizeCode(PolySizeOf(a)) == a
    ensures InputReverseOf(a) == InputReverseOf(b) ==> a == b
    ensures PolySizeOf(a) == PolySizeOf(b) ==> a == b
  {
  }

  /** The fields of the control register CR that the driver touches. */
  datatype Cr = Cr(reset: bool, polySize: bv2, revIn: bv2, revOut: bool)

  /** One write to the data register, tagged with the width of the access. */
  datatype DataWrite = W32(word: bv32) | W16(half: bv16) | W8(byte: bv8)

  /** One register write, as it appears on the bus. */
  datatype Access =
    | CrWrite(cr: Cr)
    | PolWrite(pol: bv32)
    | InitWrite(init: bv32)
    | DrWrite(data: DataWrite)
      /** The CRC unit reset through the RCC reset line. */
    | PeripheralReset

  /** The CRC register block: current register contents plus the log of all
      writes made to it so far. */
  datatype RegisterBlock = RegisterBlock(cr: Cr, pol: bv32, init: bv32, bus: seq<Access>)

  /** What reading DR returns in a given register state. The hardware computes
      it; the driver never does, so every digest takes it as a parameter. */
  type DrRead = RegisterBlock -> bv32

  /** What a read of CR returns: the stored fields with RESET as 0. The
      hardware clears RESET once the reset it requests is done, so a
      read-modify-write of CR never carries a stale reset request. */
  function ReadCr(rb: RegisterBlock): (r: Cr)
    ensures !r.reset
    ensures r.(reset := rb.cr.reset) == rb.cr
  {
    rb.cr.(reset := false)
  }

  /** The configuration the register contents select. */
  datatype Config = Config(size: PolySize, poly: bv32, seed: bv32, revIn: InputReverse, revOut: bool)

  function ConfigOf(rb: RegisterBlock): Config
  {
    Config(PolySizeOf(rb.cr.polySize), rb.pol, rb.init, InputReverseOf(rb.cr.revIn), rb.cr.revOut)
  }

  /** The words of a slice as 32-bit writes. */
  function AsWords(ws: seq<bv32>): seq<DataWrite>
  {
    seq(|ws|, i requires 0 <= i < |ws| => W32(ws[i]))
  }

  /** The halfwords of a slice as 16-bit writes. */
  function AsHalves(hs: seq<bv16>): seq<DataWrite>
  {
    seq(|hs|, i requires 0 <= i < |hs| => W16(hs[i]))
  }

  /** The configuration the CRC unit holds after a reset: 32-bit polynomial,
      POL the CRC-32 polynomial 0x04C11DB7, INIT all ones, no input or output
      reversal. These are the reset values of CRC_CR, CRC_POL and CRC_INIT in
      the STM32G0x1 reference manual (RM0444). */
  const ResetConfig := Config(Crc32, 0x04C1_1DB7, 0xFFFF_FFFF, None, false)

  /** The register block after the CRC unit is reset through RCC: CR, POL and
      INIT return to their reset values, and the reset shows in the log so that
      what DR reads afterwards can depend on it. */
  function ResetPeripheral(rb: RegisterBlock): (r: RegisterBlock)
    ensures ConfigOf(r) == ResetConfig && !r.cr.reset
    ensures r.bus == rb.bus + [PeripheralReset]
  {
    RegisterBlock(Cr(false, 0, 0, false), 0x04C1_1DB7, 0xFFFF_FFFF, rb.bus + [PeripheralReset])
  }

  /** The bus accesses that write `ws` to DR, in order. */
  function DrWrites(ws: seq<DataWrite>): (r: seq<Access>)
    ensures |r| == |ws|
    ensures forall i :: 0 <= i < |ws| ==> r[i].DrWrite? && r[i].data == ws[i]
  {
    seq(|ws|, i requires 0 <= i < |ws| => DrWrite(ws[i]))
  }

  /** The data-register writes in a bus log, in order; other registers' writes
      are dropped, so the data log is as long as the bus log exactly when the
      bus log holds nothing but DR writes. */
  function DataLog(bus: seq<Access>): (r: seq<DataWrite>)
    ensures |r| <= |bus|
    ensures |r| == |bus| <==> forall i :: 0 <= i < |bus| ==> bus[i].DrWrite?
    decreases |bus|
  {
    if bus == [] then []
    else
      assert forall i :: 1 <= i < |bus| ==> bus[i] == bus[1..][i - 1];
      if bus[0].DrWrite? then [bus[0].data] + DataLog(bus[1..])
      else DataLog(bus[1..])
  }

  /** Appending the writes of `ws` and of `vs` in turn is appending the writes
      of `ws + vs`. */
  lemma DrWritesAppend(ws: seq<DataWrite>, vs: seq<DataWrite>)
    ensures DrWrites(ws + vs) == DrWrites(ws) + DrWrites(vs)
  {
  }

  /** Reading the data log back out of a log that only holds DR writes
      recovers exactly the values written. */
  lemma {:induction false} DataLogOfDrWrites(ws: seq<DataWrite>)
    ensures DataLog(DrWrites(ws)) == ws
    decreases |ws|
  {
    if ws != [] {
      assert DrWrites(ws)[1..] == DrWrites(ws[1..]);
      DataLogOfDrWrites(ws[1..]);
    }
  }
}
