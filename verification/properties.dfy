/** Properties that relate several driver operations to one another. */
module CrcProperties {
  import opened Registers
  import opened ByteFeed
  import opened ClockControl
  import opened CrcDriver
  import Utf8

  /** The bus accesses an operation appended, given the driver before it. */
  function Appended(before: Crc, after: Crc): seq<Access>
    requires |before.rb.bus| <= |after.rb.bus|
  {
    after.rb.bus[|before.rb.bus|..]
  }

  /** Round trip of the byte digest: the data-register writes it makes,
      re-serialised big-endian (4, 2 or 1 bytes per write), are the input,
      and nothing but data-register writes is appended. */
  lemma DigestBytesRoundTrip(c: Crc, dr: DrRead, data: seq<bv8>)
    ensures var r := DigestBytes(c, dr, data).crc;
      && |c.rb.bus| <= |r.rb.bus|
      && r.rb.bus[..|c.rb.bus|] == c.rb.bus
      && (forall i :: |c.rb.bus| <= i < |r.rb.bus| ==> r.rb.bus[i].DrWrite?)
      && Serialize(DataLog(Appended(c, r))) == data
  {
    var r := DigestBytes(c, dr, data).crc;
    assert Appended(c, r) == DrWrites(Partition(data));
    DataLogOfDrWrites(Partition(data));
    SerializePartition(data);
  }

  /** Text round trip: the writes of the text digest re-serialise to the
      string's UTF-8 bytes. */
  lemma DigestStrRoundTrip(c: Crc, dr: DrRead, s: string)
    ensures var r := DigestStr(c, dr, s).crc;
      |c.rb.bus| <= |r.rb.bus| && Serialize(DataLog(Appended(c, r))) == Utf8.Encode(s)
  {
    DigestBytesRoundTrip(c, dr, Utf8.Encode(s));
  }

  /** Digesting an empty slice of any width writes nothing and returns DR as
      it reads in the unchanged state. */
  lemma EmptyDigests(c: Crc, dr: DrRead)
    ensures DigestWords(c, dr, []) == Digested(c, dr(c.rb))
    ensures DigestHalfwords(c, dr, []) == Digested(c, dr(c.rb))
    ensures DigestBytes(c, dr, []) == Digested(c, dr(c.rb))
    ensures DigestStr(c, dr, "") == Digested(c, dr(c.rb))
  {
    assert AsWords([]) == [] && AsHalves([]) == [];
    assert c.rb.(bus := c.rb.bus + []) == c.rb;
  }

  /** The slice digests write exactly the slice, element by element in order
      and at the slice's width. */
  lemma SliceDigestLogs(c: Crc, dr: DrRead, ws: seq<bv32>, hs: seq<bv16>)
    ensures var r := DigestWords(c, dr, ws).crc;
      && |Appended(c, r)| == |ws|
      && forall i :: 0 <= i < |ws| ==> Appended(c, r)[i] == DrWrite(W32(ws[i]))
    ensures var r := DigestHalfwords(c, dr, hs).crc;
      && |Appended(c, r)| == |hs|
      && forall i :: 0 <= i < |hs| ==> Appended(c, r)[i] == DrWrite(W16(hs[i]))
  {
    var rw := DigestWords(c, dr, ws).crc;
    assert Appended(c, rw) == DrWrites(AsWords(ws));
    var rh := DigestHalfwords(c, dr, hs).crc;
    assert Appended(c, rh) == DrWrites(AsHalves(hs));
  }

  /** A single word digested on its own is the one-element word slice. */
  lemma DigestWordIsSingletonSlice(c: Crc, dr: DrRead, w: bv32)
    ensures DigestWords(c, dr, [w]) == DigestWord(c, dr, w)
  {
    assert DrWrites(AsWords([w])) == [DrWrite(W32(w))];
  }

  /** Digesting two word slices in turn leaves the same state, and returns the
      same value, as digesting their concatenation: the intermediate read is
      discarded and nothing else happens between them. */
  lemma DigestWordsAppend(c: Crc, dr: DrRead, a: seq<bv32>, b: seq<bv32>)
    ensures DigestWords(DigestWords(c, dr, a).crc, dr, b) == DigestWords(c, dr, a + b)
  {
    assert AsWords(a + b) == AsWords(a) + AsWords(b);
    LoggedTwice(c, AsWords(a), AsWords(b));
  }

  /** The same for halfword slices. */
  lemma DigestHalfwordsAppend(c: Crc, dr: DrRead, a: seq<bv16>, b: seq<bv16>)
    ensures DigestHalfwords(DigestHalfwords(c, dr, a).crc, dr, b) == DigestHalfwords(c, dr, a + b)
  {
    assert AsHalves(a + b) == AsHalves(a) + AsHalves(b);
    LoggedTwice(c, AsHalves(a), AsHalves(b));
  }

  /** A byte slice whose length is a multiple of four is digested exactly
      like the word slice of its big-endian words. */
  lemma AlignedBytesAreWords(c: Crc, dr: DrRead, data: seq<bv8>)
    requires |data| % 4 == 0
    ensures DigestBytes(c, dr, data) == DigestWords(c, dr, BigEndianWords(data))
  {
    AlignedPartition(data);
    var ws := BigEndianWords(data);
    var a, b := Words(data), AsWords(ws);
    assert |a| == |b|;
    forall i | 0 <= i < |a| ensures a[i] == b[i] {
      assert b[i] == W32(ws[i]);
    }
    assert a == b;
  }

  /** Whether an access requests a reset of the CRC calculation. */
  predicate IsReset(a: Access)
  {
    a.CrWrite? && a.cr.reset
  }

  /** `polynomial` requests exactly one reset, and it is its first write,
      ahead of the POL write and the POLYSIZE write. */
  lemma PolynomialResetsFirst(c: Crc, size: PolySize, poly: bv32)
    ensures var a := Appended(c, Polynomial(c, size, poly));
      && |a| == 3
      && IsReset(a[0])
      && a[1] == PolWrite(poly)
      && a[2].CrWrite? && PolySizeOf(a[2].cr.polySize) == size
      && !IsReset(a[1]) && !IsReset(a[2])
  {
    var r := Polynomial(c, size, poly);
    assert Appended(c, r) == [CrWrite(c.rb.cr.(reset := true)), PolWrite(poly), CrWrite(r.rb.cr)];
  }

  /** No configuration setter other than `reset` and `polynomial` requests a
      reset, whatever CR held before. */
  lemma SettersDoNotReset(c: Crc, m: InputReverse, b: bool, v: bv32)
    ensures !IsReset(Appended(c, ReverseInput(c, m))[0])
    ensures !IsReset(Appended(c, ReverseOutput(c, b))[0])
    ensures !IsReset(Appended(c, Seed(c, v))[0])
  {
  }

  /** The reset request does not linger: after `reset` CR holds RESET clear
      and otherwise what it held, so a reversal setter right after it writes
      CR with RESET clear. */
  lemma NoResetAfterReset(c: Crc, m: InputReverse, b: bool)
    ensures var r := Reset(c); !r.rb.cr.reset && ReadCr(r.rb) == ReadCr(c.rb)
    ensures var r := Reset(c); !IsReset(Appended(r, ReverseOutput(r, b))[0])
    ensures var r := Reset(c); !IsReset(Appended(r, ReverseInput(r, m))[0])
  {
  }

  /** The reversal setters touch disjoint fields: applying them in either
      order selects the same configuration. */
  lemma ReversalSettersCommute(c: Crc, m: InputReverse, b: bool)
    ensures ConfigOf(ReverseInput(ReverseOutput(c, b), m).rb)
         == ConfigOf(ReverseOutput(ReverseInput(c, m), b).rb)
  {
  }

  /** A setter applied twice with the same value selects the same
      configuration as applied once. */
  lemma SettersIdempotent(c: Crc, size: PolySize, poly: bv32, v: bv32, m: InputReverse, b: bool)
    ensures ConfigOf(Polynomial(Polynomial(c, size, poly), size, poly).rb) == ConfigOf(Polynomial(c, size, poly).rb)
    ensures ConfigOf(Seed(Seed(c, v), v).rb) == ConfigOf(Seed(c, v).rb)
    ensures ConfigOf(ReverseInput(ReverseInput(c, m), m).rb) == ConfigOf(ReverseInput(c, m).rb)
    ensures ConfigOf(ReverseOutput(ReverseOutput(c, b), b).rb) == ConfigOf(ReverseOutput(c, b).rb)
  {
  }

  /** Whether two register blocks hold the same CR (RESET included), POL and
      INIT. */
  predicate SameConfigRegisters(a: RegisterBlock, b: RegisterBlock)
  {
    a.cr == b.cr && a.pol == b.pol && a.init == b.init
  }

  /** No digest changes CR, POL or INIT. */
  lemma DigestsKeepConfig(c: Crc, dr: DrRead, w: bv32, ws: seq<bv32>, hs: seq<bv16>, data: seq<bv8>, s: string)
    ensures SameConfigRegisters(DigestWord(c, dr, w).crc.rb, c.rb)
    ensures SameConfigRegisters(DigestWords(c, dr, ws).crc.rb, c.rb)
    ensures SameConfigRegisters(DigestHalfwords(c, dr, hs).crc.rb, c.rb)
    ensures SameConfigRegisters(DigestBytes(c, dr, data).crc.rb, c.rb)
    ensures SameConfigRegisters(DigestStr(c, dr, s).crc.rb, c.rb)
  {
  }

  /** `release` hands back the block `constrain` wrapped, now in its reset
      configuration with the reset logged. Constraining a released driver
      keeps its log but forgets its configuration, so constraining twice
      leaves the same registers as constraining once. */
  lemma ConstrainReleaseRoundTrip(rb: RegisterBlock, c: Crc, rcc: Rcc, rcc2: Rcc)
    ensures var back := Release(Constrain(rb, rcc).0);
      back.bus == rb.bus + [PeripheralReset] && ConfigOf(back) == ResetConfig
    ensures var again := Constrain(Release(c), rcc).0;
      again.rb.bus[..|c.rb.bus|] == c.rb.bus && ConfigOf(again.rb) == ResetConfig
    ensures var once, twice := Constrain(rb, rcc).0.rb, Constrain(Release(Constrain(rb, rcc).0), rcc2).0.rb;
      once.cr == twice.cr && once.pol == twice.pol && once.init == twice.init
  {
  }

  /** After `constrain` a read-modify-write of CR starts from the reset value
      of CR, whatever the block held before: `reverse_output` writes CR with
      only REV_OUT possibly set. */
  lemma ConstrainForgetsConfig(rb: RegisterBlock, rcc: Rcc, b: bool)
    ensures var c := Constrain(rb, rcc).0;
      Appended(c, ReverseOutput(c, b)) == [CrWrite(Cr(false, 0, 0, b))]
  {
    var c := Constrain(rb, rcc).0;
    assert c.rb.cr.polySize == PolySizeCode(Crc32);
    assert c.rb.cr.revIn == InputReverseCode(None);
  }
}
