/** How the byte-slice digest turns a byte sequence into data-register
    writes: complete 4-byte groups as big-endian words, then at most one
    big-endian halfword, then at most one single byte. `Partition` is the
    greedy reference definition; `Words`, `Halves` and `Singles` are the three
    phases the driver actually runs (`chunks_exact(4)`, `chunks_exact(2)` of
    the remainder, the bytes left over); `Serialize` is the inverse. */
module ByteFeed {
  import opened BigEndian
  import opened Registers

  /** Greedy partition: take 4 bytes while 4 remain, else 2 while 2 remain,
      else the last byte. */
  function Partition(data: seq<bv8>): seq<DataWrite>
    decreases |data|
  {
    if |data| >= 4 then [W32(WordFromBytes(data[0], data[1], data[2], data[3]))] + Partition(data[4..])
    else if |data| >= 2 then [W16(HalfFromBytes(data[0], data[1]))] + Partition(data[2..])
    else if |data| == 1 then [W8(data[0])]
    else []
  }

  /** The bytes a write puts on the bus, most significant first. */
  function Bytes(w: DataWrite): (r: seq<bv8>)
    ensures |r| == match w case W32(_) => 4 case W16(_) => 2 case W8(_) => 1
  {
    match w
    case W32(x) => WordToBytes(x)
    case W16(x) => HalfToBytes(x)
    case W8(x) => [x]
  }

  /** The byte stream a sequence of writes represents. */
  function Serialize(ws: seq<DataWrite>): seq<bv8>
    decreases |ws|
  {
    if ws == [] then [] else Bytes(ws[0]) + Serialize(ws[1..])
  }

  /** The shapes `Partition` produces: any number of word writes, then at most
      one halfword write, then at most one byte write. */
  predicate WellShaped(ws: seq<DataWrite>)
    decreases |ws|
  {
    if ws == [] then true
    else if ws[0].W32? then WellShaped(ws[1..])
    else if ws[0].W16? then |ws| == 1 || (|ws| == 2 && ws[1].W8?)
    else |ws| == 1
  }

  // ---- the three phases of the driver ----

  /** Phase one: one word write per complete 4-byte chunk, left to right;
      the chunk remainder is not touched. */
  function Words(data: seq<bv8>): seq<DataWrite>
  {
    AsWords(BigEndianWords(data))
  }

  /** The big-endian words of the complete 4-byte groups of `data`. */
  function BigEndianWords(data: seq<bv8>): (ws: seq<bv32>)
    ensures |ws| == |data| / 4
  {
    seq(|data| / 4, i requires 0 <= i < |data| / 4 =>
      WordFromBytes(data[4 * i], data[4 * i + 1], data[4 * i + 2], data[4 * i + 3]))
  }

  /** The words read from the complete 4-byte groups are one per group, and
      each unpacks to its group's bytes. */
  lemma BigEndianWordGroups(data: seq<bv8>)
    ensures var ws := BigEndianWords(data);
      forall i :: 0 <= i < |ws| ==> WordToBytes(ws[i]) == data[4 * i .. 4 * i + 4]
  {
    var ws := BigEndianWords(data);
    forall i | 0 <= i < |ws| ensures WordToBytes(ws[i]) == data[4 * i .. 4 * i + 4] {
      WordBytesRoundTrip(data[4 * i], data[4 * i + 1], data[4 * i + 2], data[4 * i + 3]);
    }
  }

  /** Phase two: one halfword write per complete 2-byte chunk. */
  function Halves(data: seq<bv8>): seq<DataWrite>
  {
    seq(|data| / 2, i requires 0 <= i < |data| / 2 => W16(HalfFromBytes(data[2 * i], data[2 * i + 1])))
  }

  /** Phase three: one byte write per byte. */
  function Singles(data: seq<bv8>): seq<DataWrite>
  {
    seq(|data|, i requires 0 <= i < |data| => W8(data[i]))
  }

  /** The bytes `chunks_exact(k)` leaves over. */
  function Remainder(data: seq<bv8>, k: nat): (r: seq<bv8>)
    requires k > 0
    ensures |r| == |data| % k
  {
    data[|data| - |data| % k..]
  }

  // ---- lemmas ----

  lemma WordsStep(data: seq<bv8>)
    requires |data| >= 4
    ensures Words(data) == [W32(WordFromBytes(data[0], data[1], data[2], data[3]))] + Words(data[4..])
  {
    var rest := data[4..];
    var w := [W32(WordFromBytes(data[0], data[1], data[2], data[3]))];
    var lhs, rhs := Words(data), w + Words(rest);
    assert |rest| / 4 == |data| / 4 - 1;
    assert |lhs| == |rhs|;
    assert lhs[0] == rhs[0];
    forall k | 1 <= k < |lhs|
      ensures lhs[k] == rhs[k]
    {
      var j := 4 * (k - 1);
      assert rest[j] == data[j + 4] && rest[j + 1] == data[j + 5];
      assert rest[j + 2] == data[j + 6] && rest[j + 3] == data[j + 7];
      assert rhs[k] == Words(rest)[k - 1];
    }
    assert lhs == rhs;
  }

  lemma HalvesStep(data: seq<bv8>)
    requires |data| >= 2
    ensures Halves(data) == [W16(HalfFromBytes(data[0], data[1]))] + Halves(data[2..])
  {
    var rest := data[2..];
    forall i | 0 <= i < |rest| / 2
      ensures Halves(data)[i + 1] == Halves(rest)[i]
    {
      assert rest[2 * i] == data[2 * (i + 1)];
    }
  }

  /** Fewer than four bytes: no word phase, the remainder is the whole input. */
  lemma ShortPhases(data: seq<bv8>)
    requires |data| < 4
    ensures Partition(data) == Halves(data) + Singles(Remainder(data, 2))
  {
    if |data| < 2 {
      SinglePhase(data);
    } else {
      PairPhase(data);
    }
  }

  /** No byte or one byte: no halfword, the byte (if any) is written alone. */
  lemma SinglePhase(data: seq<bv8>)
    requires |data| < 2
    ensures Partition(data) == Halves(data) + Singles(Remainder(data, 2))
  {
    assert Halves(data) == [];
    assert Remainder(data, 2) == data;
    if |data| == 1 {
      assert Singles(data) == [W8(data[0])];
    }
  }

  /** Two or three bytes: one halfword, then the odd byte if there is one. */
  lemma PairPhase(data: seq<bv8>)
    requires 2 <= |data| < 4
    ensures Partition(data) == Halves(data) + Singles(Remainder(data, 2))
  {
    var h := [W16(HalfFromBytes(data[0], data[1]))];
    assert Halves(data) == h;
    var tail := data[2..];
    assert Remainder(data, 2) == tail;
    assert Partition(data) == h + Partition(tail);
    if |data| == 3 {
      assert Singles(tail) == [W8(data[2])] == Partition(tail);
    }
  }

  /** The three phases, run in the driver's order, emit exactly the greedy
      partition. */
  lemma {:induction false} PhasesArePartition(data: seq<bv8>)
    ensures Partition(data) == Words(data) + PhaseTail(data)
    decreases |data|
  {
    if |data| >= 4 {
      PhasesArePartition(data[4..]);
      PhasesStep(data);
    } else {
      assert Words(data) == [];
      assert Remainder(data, 4) == data;
      ShortPhases(data);
    }
  }

  /** What the second and third loops emit: the writes after the words. */
  function PhaseTail(data: seq<bv8>): seq<DataWrite>
  {
    var r4 := Remainder(data, 4);
    Halves(r4) + Singles(Remainder(r4, 2))
  }

  /** One step of the induction: peeling a leading 4-byte group off the input
      peels one word write off both sides. */
  lemma PhasesStep(data: seq<bv8>)
    requires |data| >= 4
    requires Partition(data[4..]) == Words(data[4..]) + PhaseTail(data[4..])
    ensures Partition(data) == Words(data) + PhaseTail(data)
  {
    var w := [W32(WordFromBytes(data[0], data[1], data[2], data[3]))];
    PartitionStep(data);
    WordsStep(data);
    TailStep(data);
    ConcatAssoc(w, Words(data[4..]), PhaseTail(data));
  }

  lemma PartitionStep(data: seq<bv8>)
    requires |data| >= 4
    ensures Partition(data) == [W32(WordFromBytes(data[0], data[1], data[2], data[3]))] + Partition(data[4..])
  {
  }

  /** A leading 4-byte group does not change what the last two loops see. */
  lemma TailStep(data: seq<bv8>)
    requires |data| >= 4
    ensures PhaseTail(data[4..]) == PhaseTail(data)
  {
    assert Remainder(data[4..], 4) == Remainder(data, 4);
  }

  lemma ConcatAssoc<T>(a: seq<T>, b: seq<T>, c: seq<T>)
    ensures a + (b + c) == (a + b) + c
  {
  }

  /** When the length is a multiple of four only the word loop writes. */
  lemma AlignedPartition(data: seq<bv8>)
    requires |data| % 4 == 0
    ensures Partition(data) == Words(data)
  {
    PhasesArePartition(data);
    var r4 := Remainder(data, 4);
    assert r4 == [];
    assert Halves(r4) == [] && Remainder(r4, 2) == [];
    assert PhaseTail(data) == [];
  }

  /** The three phase outputs of `n` bytes have `n/4`, `(n%4)/2` and
      `(n%4)%2` writes, all of one width each. */
  lemma PhaseSizes(data: seq<bv8>)
    ensures var n, r4 := |data|, Remainder(data, 4);
      && |Words(data)| == n / 4
      && |Halves(r4)| == (n % 4) / 2
      && |Singles(Remainder(r4, 2))| == (n % 4) % 2
      && (forall i :: 0 <= i < |Words(data)| ==> Words(data)[i].W32?)
      && (forall i :: 0 <= i < |Halves(r4)| ==> Halves(r4)[i].W16?)
      && (forall i :: 0 <= i < |Singles(Remainder(r4, 2))| ==> Singles(Remainder(r4, 2))[i].W8?)
  {
  }

  /** Counting: `n` input bytes give `n/4 + (n%4)/2 + (n%4)%2` writes. */
  lemma PartitionCount(data: seq<bv8>)
    ensures var n := |data|; |Partition(data)| == n / 4 + (n % 4) / 2 + (n % 4) % 2
  {
    PhasesArePartition(data);
    PhaseSizes(data);
  }

  /** Layout: the first `n/4` writes are word writes, the next `(n%4)/2`
      halfword writes, and the rest byte writes, so no width is interleaved
      with another. */
  lemma PartitionShape(data: seq<bv8>)
    ensures var n, p := |data|, Partition(data);
      && (forall i :: 0 <= i < |p| ==> (p[i].W32? <==> i < n / 4))
      && (forall i :: 0 <= i < |p| ==> (p[i].W16? <==> n / 4 <= i < n / 4 + (n % 4) / 2))
      && (forall i :: 0 <= i < |p| ==> (p[i].W8? <==> n / 4 + (n % 4) / 2 <= i))
  {
    PhasesArePartition(data);
    PhaseSizes(data);
    var r4 := Remainder(data, 4);
    var a, b, c := Words(data), Halves(r4), Singles(Remainder(r4, 2));
    var p := Partition(data);
    assert p == a + (b + c);
    forall i | 0 <= i < |p|
      ensures p[i].W32? <==> i < |a|
      ensures p[i].W16? <==> |a| <= i < |a| + |b|
      ensures p[i].W8? <==> |a| + |b| <= i
    {
      if i < |a| {
        assert p[i] == a[i];
      } else if i < |a| + |b| {
        assert p[i] == b[i - |a|];
      } else {
        assert p[i] == c[i - |a| - |b|];
      }
    }
  }

  /** Word write `i` is the big-endian reading of bytes `4i..4i+3`: chunks
      are taken left to right. */
  lemma PartitionWords(data: seq<bv8>)
    ensures var p := Partition(data);
      forall i :: 0 <= i < |data| / 4 ==>
        i < |p| && p[i] == W32(WordFromBytes(data[4 * i], data[4 * i + 1], data[4 * i + 2], data[4 * i + 3]))
  {
    PhasesArePartition(data);
    var a, t := Words(data), PhaseTail(data);
    var p := Partition(data);
    assert p == a + t;
    assert |a| == |data| / 4;
    forall i | 0 <= i < |a|
      ensures i < |p| && p[i] == a[i]
    {
    }
  }

  /** The halfword write, when there is one, is the big-endian reading of the
      two bytes after the last complete 4-byte group, and it comes right after
      the word writes. */
  lemma PartitionHalf(data: seq<bv8>)
    requires |data| % 4 >= 2
    ensures var n, p := |data|, Partition(data);
      n / 4 < |p| && p[n / 4] == W16(HalfFromBytes(data[4 * (n / 4)], data[4 * (n / 4) + 1]))
  {
    PhasesArePartition(data);
    var n := |data|;
    var r4 := Remainder(data, 4);
    var a, b, c := Words(data), Halves(r4), Singles(Remainder(r4, 2));
    var p := Partition(data);
    assert |a| == n / 4;
    assert b == [W16(HalfFromBytes(r4[0], r4[1]))];
    assert p == a + (b + c);
    assert p[n / 4] == (b + c)[0] == b[0];
    assert r4[0] == data[4 * (n / 4)] && r4[1] == data[4 * (n / 4) + 1];
  }

  /** When the length is odd, the last write is a byte write carrying the
      last byte. */
  lemma PartitionLastByte(data: seq<bv8>)
    requires |data| % 2 == 1
    ensures var p := Partition(data);
      |p| > 0 && p[|p| - 1] == W8(data[|data| - 1])
  {
    PhasesArePartition(data);
    var r4 := Remainder(data, 4);
    OddRemainder(data);
    var c := Singles(Remainder(r4, 2));
    assert c == [W8(data[|data| - 1])];
    LastOfAppend(Halves(r4), c);
    LastOfAppend(Words(data), PhaseTail(data));
  }

  /** For an odd length, what the halfword loop leaves is the last byte. */
  lemma OddRemainder(data: seq<bv8>)
    requires |data| % 2 == 1
    ensures Remainder(Remainder(data, 4), 2) == [data[|data| - 1]]
  {
    var n := |data|;
    var r4 := Remainder(data, 4);
    assert |r4| == n % 4 && (|r4| == 1 || |r4| == 3);
    assert r4 == data[n - n % 4..];
    assert r4[|r4| - 1] == data[n - 1];
    assert Remainder(r4, 2) == r4[|r4| - 1..];
  }

  lemma LastOfAppend<T>(a: seq<T>, b: seq<T>)
    requires |b| > 0
    ensures |a + b| > 0 && (a + b)[|a + b| - 1] == b[|b| - 1]
  {
  }

  /** Round trip: re-serialising the partition big-endian reproduces the input,
      so every byte is written exactly once, in order. */
  lemma {:induction false} SerializePartition(data: seq<bv8>)
    ensures Serialize(Partition(data)) == data
    decreases |data|
  {
    if |data| >= 4 {
      WordBytesRoundTrip(data[0], data[1], data[2], data[3]);
      SerializePartition(data[4..]);
      assert data == data[..4] + data[4..];
    } else if |data| >= 2 {
      HalfBytesRoundTrip(data[0], data[1]);
      SerializePartition(data[2..]);
      assert data == data[..2] + data[2..];
    } else if |data| == 1 {
      assert Serialize([W8(data[0])]) == [data[0]] + Serialize([]);
    }
  }

  /** Every partition has the word*, halfword?, byte? shape. */
  lemma {:induction false} PartitionWellShaped(data: seq<bv8>)
    ensures WellShaped(Partition(data))
    decreases |data|
  {
    if |data| >= 4 {
      PartitionWellShaped(data[4..]);
      assert Partition(data)[1..] == Partition(data[4..]);
    } else if |data| == 3 {
      assert Partition(data) == [W16(HalfFromBytes(data[0], data[1])), W8(data[2])];
    }
  }

  /** Converse round trip: a well-shaped write log is the partition of its own
      serialisation, so `Partition` and `Serialize` are mutually inverse
      between byte sequences and well-shaped logs. */
  lemma {:induction false} PartitionSerialize(ws: seq<DataWrite>)
    requires WellShaped(ws)
    ensures Partition(Serialize(ws)) == ws
    decreases |ws|
  {
    if ws == [] {
    } else if ws[0].W32? {
      var s := Serialize(ws);
      var b := WordToBytes(ws[0].word);
      assert s == b + Serialize(ws[1..]);
      WordRoundTrip(ws[0].word);
      assert s[4..] == Serialize(ws[1..]);
      PartitionSerialize(ws[1..]);
      assert ws == [ws[0]] + ws[1..];
    } else if ws[0].W16? {
      var b := HalfToBytes(ws[0].half);
      HalfRoundTrip(ws[0].half);
      if |ws| == 1 {
        assert Serialize(ws) == b;
        assert Partition(b[2..]) == [];
      } else {
        assert ws[1..] == [ws[1]] && ws[1..][1..] == [];
        assert Serialize(ws[1..]) == Bytes(ws[1]) + Serialize([]) == [ws[1].byte];
        assert Serialize(ws) == b + [ws[1].byte];
        assert Partition(Serialize(ws)) == [W16(ws[0].half)] + Partition([ws[1].byte]);
        assert ws == [ws[0], ws[1]];
      }
    } else {
      assert Serialize(ws) == [ws[0].byte];
    }
  }
}
