/** The CRC driver (`Crc`): configuration setters that modify CR, POL and
    INIT, the digest operations that decide what is written to the data
    register, at which width and in which order, and the clock-enable binding
    (`constrain`) that produces a driver from a raw register block. */
module CrcDriver {
  import opened BigEndian
  import opened Registers
  import opened ByteFeed
  import opened ClockControl
  import Utf8

  /** The driver owns the register block. */
  datatype Crc = Crc(rb: RegisterBlock)

  /** The driver after a digest, and the value the digest returned. */
  datatype Digested = Digested(crc: Crc, value: bv32)

  /** The driver with `data` appended to the register block's bus log and
      nothing else changed. */
  function Logged(c: Crc, data: seq<DataWrite>): Crc
  {
    Crc(c.rb.(bus := c.rb.bus + DrWrites(data)))
  }

  /** Logging `a` and then `b` is logging `a + b`. */
  lemma LoggedTwice(c: Crc, a: seq<DataWrite>, b: seq<DataWrite>)
    ensures Logged(Logged(c, a), b) == Logged(c, a + b)
  {
    DrWritesAppend(a, b);
    assert c.rb.bus + DrWrites(a) + DrWrites(b) == c.rb.bus + (DrWrites(a) + DrWrites(b));
  }

  // ---- configuration ----

  /** `cr.modify(..)` writing `written`, a value the caller derived from
      `ReadCr`: the update is written back in one bus write. The RESET bit is
      cleared by the hardware once the reset it requests is done, so it is
      stored as 0. */
  function ModifyCr(c: Crc, written: Cr): (r: Crc)
    ensures r.rb.cr == written.(reset := false)
    ensures r.rb.pol == c.rb.pol && r.rb.init == c.rb.init
    ensures r.rb.bus == c.rb.bus + [CrWrite(written)]
  {
    Crc(c.rb.(cr := written.(reset := false), bus := c.rb.bus + [CrWrite(written)]))
  }

  /** `Crc::reset`: one CR write with RESET set; the configuration is kept. */
  function Reset(c: Crc): (r: Crc)
    ensures ConfigOf(r.rb) == ConfigOf(c.rb)
    ensures r.rb.bus == c.rb.bus + [CrWrite(c.rb.cr.(reset := true))]
  {
    ModifyCr(c, ReadCr(c.rb).(reset := true))
  }

  /** `Crc::polynomial`: reset first, then POL := `poly`, then the POLYSIZE
      field of CR := the code of `size`. */
  function Polynomial(c: Crc, size: PolySize, poly: bv32): (r: Crc)
    ensures ConfigOf(r.rb) == ConfigOf(c.rb).(size := size, poly := poly)
    ensures r.rb.bus == c.rb.bus + [CrWrite(c.rb.cr.(reset := true)), PolWrite(poly), CrWrite(r.rb.cr)]
  {
    var reset := Reset(c);
    var withPol := Crc(reset.rb.(pol := poly, bus := reset.rb.bus + [PolWrite(poly)]));
    ModifyCr(withPol, ReadCr(withPol.rb).(polySize := PolySizeCode(size)))
  }

  /** `Crc::seed`: one INIT write; only the seed changes. */
  function Seed(c: Crc, value: bv32): (r: Crc)
    ensures ConfigOf(r.rb) == ConfigOf(c.rb).(seed := value)
    ensures r.rb.cr == c.rb.cr
    ensures r.rb.bus == c.rb.bus + [InitWrite(value)]
  {
    Crc(c.rb.(init := value, bus := c.rb.bus + [InitWrite(value)]))
  }

  /** `Crc::reverse_output`: one CR write; only the output reversal changes. */
  function ReverseOutput(c: Crc, revOut: bool): (r: Crc)
    ensures ConfigOf(r.rb) == ConfigOf(c.rb).(revOut := revOut)
    ensures |r.rb.bus| == |c.rb.bus| + 1 && r.rb.bus[..|c.rb.bus|] == c.rb.bus
    ensures r.rb.bus[|c.rb.bus|] == CrWrite(ReadCr(c.rb).(revOut := revOut))
  {
    ModifyCr(c, ReadCr(c.rb).(revOut := revOut))
  }

  /** `Crc::reverse_input`: one CR write; only the input reversal changes. */
  function ReverseInput(c: Crc, mode: InputReverse): (r: Crc)
    ensures ConfigOf(r.rb) == ConfigOf(c.rb).(revIn := mode)
    ensures |r.rb.bus| == |c.rb.bus| + 1 && r.rb.bus[..|c.rb.bus|] == c.rb.bus
    ensures r.rb.bus[|c.rb.bus|] == CrWrite(ReadCr(c.rb).(revIn := InputReverseCode(mode)))
  {
    ModifyCr(c, ReadCr(c.rb).(revIn := InputReverseCode(mode)))
  }

  /** `Crc::release`: hands the register block back. */
  function Release(c: Crc): (rb: RegisterBlock)
    ensures Crc(rb) == c
  {
    c.rb
  }

  /** `CrcExt::constrain`: enable the CRC clock, pulse the CRC reset line,
      which returns the CRC registers to their reset values, and wrap the
      register block in a driver. */
  function Constrain(rb: RegisterBlock, rcc: Rcc): (r: (Crc, Rcc))
    ensures ConfigOf(r.0.rb) == ResetConfig && !r.0.rb.cr.reset
    ensures r.0.rb.bus == rb.bus + [PeripheralReset]
    ensures r.1.crcEn && !r.1.crcRst
    ensures PulsedAfterEnable(rcc.bus, r.1.bus)
  {
    var rcc' := SetReset(SetReset(SetClock(rcc, true), true), false);
    (Crc(ResetPeripheral(rb)), rcc')
  }

  // ---- digests ----

  /** `Digest<u32>`: one 32-bit write to DR, then DR is read. */
  function DigestWord(c: Crc, dr: DrRead, data: bv32): (r: Digested)
    ensures r.crc.rb == c.rb.(bus := c.rb.bus + [DrWrite(W32(data))])
    ensures r.value == dr(r.crc.rb)
  {
    var c' := Logged(c, [W32(data)]);
    Digested(c', dr(c'.rb))
  }

  /** The loop of `Digest<&[u32]>`: each word goes through the single-word
      digest, whose read is discarded. */
  function FeedWords(c: Crc, dr: DrRead, ws: seq<bv32>): (r: Crc)
    ensures r == Logged(c, AsWords(ws))
    decreases |ws|
  {
    if ws == [] then c
    else
      var next := DigestWord(c, dr, ws[0]).crc;
      assert next == Logged(c, [W32(ws[0])]);
      assert AsWords(ws) == [W32(ws[0])] + AsWords(ws[1..]);
      LoggedTwice(c, [W32(ws[0])], AsWords(ws[1..]));
      FeedWords(next, dr, ws[1..])
  }

  /** `Digest<&[u32]>`: the words are written in slice order, then DR is read
      once. */
  function DigestWords(c: Crc, dr: DrRead, ws: seq<bv32>): (r: Digested)
    ensures r.crc.rb == c.rb.(bus := c.rb.bus + DrWrites(AsWords(ws)))
    ensures r.value == dr(r.crc.rb)
  {
    var c' := FeedWords(c, dr, ws);
    Digested(c', dr(c'.rb))
  }

  /** The loop of `Digest<&[u16]>`: a 16-bit write per halfword, no read. */
  function FeedHalves(c: Crc, hs: seq<bv16>): (r: Crc)
    ensures r == Logged(c, AsHalves(hs))
    decreases |hs|
  {
    if hs == [] then c
    else
      assert AsHalves(hs) == [W16(hs[0])] + AsHalves(hs[1..]);
      LoggedTwice(c, [W16(hs[0])], AsHalves(hs[1..]));
      FeedHalves(Logged(c, [W16(hs[0])]), hs[1..])
  }

  /** `Digest<&[u16]>`: the halfwords are written in slice order, then DR is
      read once. */
  function DigestHalfwords(c: Crc, dr: DrRead, hs: seq<bv16>): (r: Digested)
    ensures r.crc.rb == c.rb.(bus := c.rb.bus + DrWrites(AsHalves(hs)))
    ensures r.value == dr(r.crc.rb)
  {
    var c' := FeedHalves(c, hs);
    Digested(c', dr(c'.rb))
  }

  /** First loop of `Digest<&[u8]>`: every complete 4-byte chunk, read
      big-endian, through the single-word digest. */
  function FeedWordChunks(c: Crc, dr: DrRead, data: seq<bv8>): (r: Crc)
    ensures r == Logged(c, Words(data))
    decreases |data|
  {
    if |data| < 4 then
      assert Words(data) == [];
      c
    else
      var w := WordFromBytes(data[0], data[1], data[2], data[3]);
      var next := DigestWord(c, dr, w).crc;
      assert next == Logged(c, [W32(w)]);
      WordsStep(data);
      LoggedTwice(c, [W32(w)], Words(data[4..]));
      FeedWordChunks(next, dr, data[4..])
  }

  /** Second loop: every complete 2-byte chunk of what is left, read
      big-endian, through the halfword-slice digest as a one-element slice. */
  function FeedHalfChunks(c: Crc, dr: DrRead, data: seq<bv8>): (r: Crc)
    ensures r == Logged(c, Halves(data))
    decreases |data|
  {
    if |data| < 2 then
      assert Halves(data) == [];
      c
    else
      var h := HalfFromBytes(data[0], data[1]);
      var next := DigestHalfwords(c, dr, [h]).crc;
      assert AsHalves([h]) == [W16(h)];
      assert next == Logged(c, [W16(h)]);
      HalvesStep(data);
      LoggedTwice(c, [W16(h)], Halves(data[2..]));
      FeedHalfChunks(next, dr, data[2..])
  }

  /** Third loop: an 8-bit write per byte still left. */
  function FeedSingles(c: Crc, data: seq<bv8>): (r: Crc)
    ensures r == Logged(c, Singles(data))
    decreases |data|
  {
    if data == [] then c
    else
      assert Singles(data) == [W8(data[0])] + Singles(data[1..]);
      LoggedTwice(c, [W8(data[0])], Singles(data[1..]));
      FeedSingles(Logged(c, [W8(data[0])]), data[1..])
  }

  /** `Digest<&[u8]>`: the three loops in turn, then one read of DR. The
      writes it makes are exactly the greedy partition of the input. */
  function DigestBytes(c: Crc, dr: DrRead, data: seq<bv8>): (r: Digested)
    ensures r.crc.rb == c.rb.(bus := c.rb.bus + DrWrites(Partition(data)))
    ensures r.value == dr(r.crc.rb)
  {
    var rest4 := Remainder(data, 4);
    var rest2 := Remainder(rest4, 2);
    var c1 := FeedWordChunks(c, dr, data);
    var c2 := FeedHalfChunks(c1, dr, rest4);
    var c3 := FeedSingles(c2, rest2);
    PhasesArePartition(data);
    LoggedTwice(c1, Halves(rest4), Singles(rest2));
    LoggedTwice(c, Words(data), Halves(rest4) + Singles(rest2));
    Digested(c3, dr(c3.rb))
  }

  /** `Digest<&str>`: the string's UTF-8 bytes through the byte path. */
  function DigestStr(c: Crc, dr: DrRead, s: string): (r: Digested)
    ensures r == DigestBytes(c, dr, Utf8.Encode(s))
    ensures r.crc.rb.bus == c.rb.bus + DrWrites(Partition(Utf8.Encode(s)))
  {
    DigestBytes(c, dr, Utf8.Encode(s))
  }
}
