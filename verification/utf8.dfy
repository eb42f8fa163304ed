/** The UTF-8 encoding of a string: the bytes `str::as_bytes` exposes, which
    the text digest feeds through the byte path. Characters are Unicode scalar
    values, as Rust's `char` is. */
module Utf8 {

  /** How many bytes a sequence announces by its first byte (0 for a byte
      that cannot start a sequence). */
  function LeadLength(b: bv8): nat
  {
    if b < 0x80 then 1
    else if b & 0xE0 == 0xC0 then 2
    else if b & 0xF0 == 0xE0 then 3
    else if b & 0xF8 == 0xF0 then 4
    else 0
  }

  /** A byte of the form 10xxxxxx, which only ever follows a lead byte. */
  predicate IsContinuation(b: bv8)
  {
    b & 0xC0 == 0x80
  }

  /** The UTF-8 encoding of one character: one byte below U+0080, two below
      U+0800, three below U+10000, four otherwise. */
  function EncodeChar(c: char): (r: seq<bv8>)
    ensures 1 <= |r| <= 4
    ensures |r| == LeadLength(r[0])
    ensures forall i :: 1 <= i < |r| ==> IsContinuation(r[i])
    ensures |r| == 1 <==> c as bv21 < 0x80
    ensures |r| == 1 ==> r[0] as bv21 == c as bv21
    ensures |r| == 2 <==> 0x80 <= c as bv21 < 0x800
    ensures |r| == 3 <==> 0x800 <= c as bv21 < 0x10000
    ensures |r| == 4 <==> 0x10000 <= c as bv21
  {
    EncodeCode(c as bv21)
  }

  /** The encoding of a code point, by the width its value calls for. */
  function EncodeCode(n: bv21): (r: seq<bv8>)
    ensures 1 <= |r| <= 4
    ensures |r| == LeadLength(r[0])
    ensures forall i :: 1 <= i < |r| ==> IsContinuation(r[i])
    ensures |r| == 1 <==> n < 0x80
    ensures |r| == 1 ==> r[0] as bv21 == n
    ensures |r| == 2 <==> 0x80 <= n < 0x800
    ensures |r| == 3 <==> 0x800 <= n < 0x10000
    ensures |r| == 4 <==> 0x10000 <= n
  {
    if n < 0x80 then [n as bv8]
    else if n < 0x800 then TwoBytes(n)
    else if n < 0x10000 then ThreeBytes(n)
    else FourBytes(n)
  }

  function TwoBytes(n: bv21): (r: seq<bv8>)
    ensures |r| == 2 == LeadLength(r[0]) && IsContinuation(r[1])
  {
    [(((n >> 6) & 0x1F) | 0xC0) as bv8, ((n & 0x3F) | 0x80) as bv8]
  }

  function ThreeBytes(n: bv21): (r: seq<bv8>)
    ensures |r| == 3 == LeadLength(r[0]) && IsContinuation(r[1]) && IsContinuation(r[2])
  {
    [(((n >> 12) & 0x0F) | 0xE0) as bv8, (((n >> 6) & 0x3F) | 0x80) as bv8, ((n & 0x3F) | 0x80) as bv8]
  }

  function FourBytes(n: bv21): (r: seq<bv8>)
    ensures |r| == 4 == LeadLength(r[0])
    ensures IsContinuation(r[1]) && IsContinuation(r[2]) && IsContinuation(r[3])
  {
    [(((n >> 18) & 0x07) | 0xF0) as bv8, (((n >> 12) & 0x3F) | 0x80) as bv8,
     (((n >> 6) & 0x3F) | 0x80) as bv8, ((n & 0x3F) | 0x80) as bv8]
  }

  /** The code point a 1- to 4-byte sequence carries: the payload bits of the
      lead byte followed by six payload bits from each continuation byte. */
  function DecodeChar(b: seq<bv8>): bv21
    requires 1 <= |b| <= 4
  {
    if |b| == 1 then b[0] as bv21
    else if |b| == 2 then ((b[0] & 0x1F) as bv21 << 6) | (b[1] & 0x3F) as bv21
    else if |b| == 3 then
      ((b[0] & 0x0F) as bv21 << 12) | ((b[1] & 0x3F) as bv21 << 6) | (b[2] & 0x3F) as bv21
    else
      ((b[0] & 0x07) as bv21 << 18) | ((b[1] & 0x3F) as bv21 << 12)
      | ((b[2] & 0x3F) as bv21 << 6) | (b[3] & 0x3F) as bv21
  }

  /** The two-byte form carries its code point's 11 bits. */
  lemma TwoBytesDecode(n: bv21)
    requires 0x80 <= n < 0x800
    ensures DecodeChar(TwoBytes(n)) == n
  {
  }

  /** The three-byte form carries its code point's 16 bits. */
  lemma ThreeBytesDecode(n: bv21)
    requires 0x800 <= n < 0x10000
    ensures DecodeChar(ThreeBytes(n)) == n
  {
  }

  /** The four-byte form carries all 21 bits of a code point. */
  lemma FourBytesDecode(n: bv21)
    requires 0x10000 <= n
    ensures DecodeChar(FourBytes(n)) == n
  {
  }

  /** Decoding the encoding of any code point gives the code point back. */
  lemma EncodeCodeDecodes(n: bv21)
    ensures DecodeChar(EncodeCode(n)) == n
  {
    if n < 0x80 {
    } else if n < 0x800 {
      TwoBytesDecode(n);
    } else if n < 0x10000 {
      ThreeBytesDecode(n);
    } else {
      FourBytesDecode(n);
    }
  }

  /** A shortest-form sequence: a lead byte announcing the sequence's length,
      continuation bytes after it, and a code point that needs that many
      bytes. */
  predicate ShortestForm(b: seq<bv8>)
  {
    && 1 <= |b| <= 4
    && LeadLength(b[0]) == |b|
    && (forall i :: 1 <= i < |b| ==> IsContinuation(b[i]))
    && (|b| == 2 ==> 0x80 <= DecodeChar(b))
    && (|b| == 3 ==> 0x800 <= DecodeChar(b))
    && (|b| == 4 ==> 0x10000 <= DecodeChar(b))
  }

  /** Every shortest-form sequence is the encoding of the 21-bit value it
      carries, so `EncodeCode` is a bijection from 21-bit values onto them.
      Shortest form admits values above U+10FFFF and surrogates, which no
      character has. */
  lemma DecodeEncodeCode(b: seq<bv8>)
    requires ShortestForm(b)
    ensures EncodeCode(DecodeChar(b)) == b
  {
    if |b| == 1 {
      assert [DecodeChar(b) as bv8] == b;
    } else if |b| == 2 {
      assert b == [b[0], b[1]];
      TwoBytesOf(b[0], b[1]);
    } else if |b| == 3 {
      assert b == [b[0], b[1], b[2]];
      ThreeBytesOf(b[0], b[1], b[2]);
    } else {
      assert b == [b[0], b[1], b[2], b[3]];
      FourBytesOf(b[0], b[1], b[2], b[3]);
    }
  }

  lemma TwoBytesOf(b0: bv8, b1: bv8)
    requires b0 & 0xE0 == 0xC0 && IsContinuation(b1)
    ensures DecodeChar([b0, b1]) < 0x800
    ensures TwoBytes(DecodeChar([b0, b1])) == [b0, b1]
  {
  }

  lemma ThreeBytesOf(b0: bv8, b1: bv8, b2: bv8)
    requires b0 & 0xF0 == 0xE0 && IsContinuation(b1) && IsContinuation(b2)
    ensures DecodeChar([b0, b1, b2]) < 0x10000
    ensures ThreeBytes(DecodeChar([b0, b1, b2])) == [b0, b1, b2]
  {
  }

  lemma FourBytesOf(b0: bv8, b1: bv8, b2: bv8, b3: bv8)
    requires b0 & 0xF8 == 0xF0 && IsContinuation(b1) && IsContinuation(b2) && IsContinuation(b3)
    ensures FourBytes(DecodeChar([b0, b1, b2, b3])) == [b0, b1, b2, b3]
  {
  }

  /** Decoding a character's encoding gives its code point back, so no two
      characters share an encoding. */
  lemma EncodeCharDecodes(c: char)
    ensures DecodeChar(EncodeChar(c)) == c as bv21
  {
    EncodeCodeDecodes(c as bv21);
  }

  /** The UTF-8 encoding of a string, character by character. */
  function Encode(s: string): (r: seq<bv8>)
    ensures |r| >= |s|
    decreases |s|
  {
    if s == [] then [] else EncodeChar(s[0]) + Encode(s[1..])
  }

  predicate IsAscii(s: string)
  {
    forall i :: 0 <= i < |s| ==> s[i] as bv21 < 0x80
  }

  /** A string is ASCII when its first character is and the rest is. */
  lemma AsciiCons(s: string)
    requires s != []
    ensures IsAscii(s) <==> s[0] as bv21 < 0x80 && IsAscii(s[1..])
  {
    if s[0] as bv21 < 0x80 && IsAscii(s[1..]) {
      forall i | 0 <= i < |s| ensures s[i] as bv21 < 0x80 {
        if i > 0 { assert s[i] == s[1..][i - 1]; }
      }
    }
  }

  /** A string's encoding has exactly one byte per character precisely when
      the string is ASCII. */
  lemma {:induction false} EncodeAsciiLength(s: string)
    ensures |Encode(s)| == |s| <==> IsAscii(s)
    decreases |s|
  {
    if s != [] {
      EncodeAsciiLength(s[1..]);
      AsciiCons(s);
    }
  }

  /** An ASCII string encodes to one byte per character, the byte being the
      character's one-byte encoding, that is, its code. */
  lemma {:induction false} EncodeAsciiBytes(s: string)
    requires IsAscii(s)
    ensures |Encode(s)| == |s|
    ensures forall i :: 0 <= i < |s| ==> |EncodeChar(s[i])| == 1 && Encode(s)[i] == EncodeChar(s[i])[0]
    decreases |s|
  {
    if s != [] {
      AsciiCons(s);
      EncodeAsciiBytes(s[1..]);
      var head, tail := EncodeChar(s[0]), Encode(s[1..]);
      assert |head| == 1;
      assert Encode(s) == head + tail;
      forall i | 1 <= i < |s| ensures |EncodeChar(s[i])| == 1 && Encode(s)[i] == EncodeChar(s[i])[0] {
        assert Encode(s)[i] == tail[i - 1];
        assert s[i] == s[1..][i - 1];
      }
    }
  }

  /** Encoding distributes over concatenation, so a string's bytes are its
      characters' encodings laid end to end. */
  lemma {:induction false} EncodeAppend(s: string, t: string)
    ensures Encode(s + t) == Encode(s) + Encode(t)
    decreases |s|
  {
    if s != [] {
      assert (s + t)[1..] == s[1..] + t;
      EncodeAppend(s[1..], t);
    } else {
      assert s + t == t;
    }
  }
}
