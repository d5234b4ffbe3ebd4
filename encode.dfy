/** The encoder `encode64` (src/base64.h:36-73): the bytes are cut into
    chunks of three, each chunk is folded into a word that also records how
    many bytes it lacks, and each word gives four symbols, the trailing ones
    `=` for the missing bytes. */
module Encode64 {
  import opened Base64Types
  import opened Alphabet

  /** The fold's unit in the otherwise unused top byte: one missing byte. */
  const OneMissingByte: bv32 := 0x100_0000
  const LowMask: bv32 := 0xFF_FFFF

  /** One step of the fold: one fewer byte missing, the byte shifted into
      the low 24 bits. */
  function FoldStep(o1: bv32, o2: byte): bv32
  {
    ((o1 - OneMissingByte) & !LowMask) | (((o1 << 8) | o2 as bv32) & LowMask)
  }

  /** `fold_left` over a chunk. */
  function FoldLeft(init: bv32, t: seq<byte>): bv32
    decreases |t|
  {
    if t == [] then init else FoldLeft(FoldStep(init, t[0]), t[1..])
  }

  /** The bytes of a chunk read as a big-endian number. */
  function BigEndian(t: seq<byte>): bv32
    requires |t| <= 3
  {
    if |t| == 0 then 0
    else if |t| == 1 then t[0] as bv32
    else if |t| == 2 then (t[0] as bv32 << 8) | t[1] as bv32
    else (t[0] as bv32 << 16) | (t[1] as bv32 << 8) | t[2] as bv32
  }

  /** The word of a chunk: the number of missing bytes in the top byte, the
      bytes themselves, first byte most significant, in the low 24 bits. */
  function PackChunk(t: seq<byte>): (w: bv32)
    requires 1 <= |t| <= 3
    ensures w >> 24 <= 2 && ((w >> 24) as bv8) as int == 3 - |t|
    ensures w & LowMask == BigEndian(t)
  {
    FoldChunk(t);
    BigEndianFits(t);
    var missing: bv32 := if |t| == 1 then 0x200_0000 else if |t| == 2 then 0x100_0000 else 0;
    SplitWord(missing, BigEndian(t));
    assert ((missing >> 24) as bv8) as int == 3 - |t|;
    FoldLeft(3 * OneMissingByte, t)
  }

  lemma BigEndianFits(t: seq<byte>)
    requires |t| <= 3
    ensures BigEndian(t) <= LowMask
  {
    if |t| == 1 {
      ByteFits(t[0]);
    } else if |t| == 2 {
      TwoBytesFit(t[0], t[1]);
    } else if |t| == 3 {
      ThreeBytesFit(t[0], t[1], t[2]);
    }
  }

  lemma ByteFits(a: byte)
    ensures a as bv32 <= LowMask
  {
  }

  lemma TwoBytesFit(a: byte, b: byte)
    ensures (a as bv32 << 8) | b as bv32 <= LowMask
  {
  }

  lemma ThreeBytesFit(a: byte, b: byte, c: byte)
    ensures (a as bv32 << 16) | (b as bv32 << 8) | c as bv32 <= LowMask
  {
  }

  lemma TopOf(top: bv32, low: bv32)
    requires top & LowMask == 0 && low <= LowMask
    ensures (top | low) >> 24 == top >> 24
  {
  }

  /** A word whose top byte and low 24 bits come from two separate parts. */
  lemma SplitWord(top: bv32, low: bv32)
    requires top & LowMask == 0 && low <= LowMask
    ensures (top | low) >> 24 == top >> 24
    ensures (top | low) & LowMask == low
  {
  }

  lemma FoldChunk(t: seq<byte>)
    requires 1 <= |t| <= 3
    ensures FoldLeft(3 * OneMissingByte, t)
         == (if |t| == 1 then 0x200_0000 else if |t| == 2 then 0x100_0000 else 0) | BigEndian(t)
  {
    if |t| == 1 {
      FoldOneByte(t);
    } else if |t| == 2 {
      FoldTwoBytes(t);
    } else {
      FoldThreeBytes(t);
    }
  }

  lemma FoldOneByte(t: seq<byte>)
    requires |t| == 1
    ensures FoldLeft(3 * OneMissingByte, t) == 0x200_0000 | t[0] as bv32
    ensures BigEndian(t) == t[0] as bv32
  {
    assert FoldLeft(3 * OneMissingByte, t) == FoldLeft(FoldStep(3 * OneMissingByte, t[0]), []) by {
      assert t[1..] == [];
    }
  }

  lemma FoldTwoBytes(t: seq<byte>)
    requires |t| == 2
    ensures FoldLeft(3 * OneMissingByte, t) == 0x100_0000 | (t[0] as bv32 << 8) | t[1] as bv32
    ensures BigEndian(t) == (t[0] as bv32 << 8) | t[1] as bv32
  {
    var w1 := FoldStep(3 * OneMissingByte, t[0]);
    assert FoldLeft(3 * OneMissingByte, t) == FoldLeft(w1, t[1..]);
    assert FoldLeft(w1, t[1..]) == FoldLeft(FoldStep(w1, t[1]), []) by {
      assert t[1..][1..] == [];
    }
  }

  lemma FoldThreeBytes(t: seq<byte>)
    requires |t| == 3
    ensures FoldLeft(3 * OneMissingByte, t) == (t[0] as bv32 << 16) | (t[1] as bv32 << 8) | t[2] as bv32
    ensures BigEndian(t) == (t[0] as bv32 << 16) | (t[1] as bv32 << 8) | t[2] as bv32
  {
    var w1 := FoldStep(3 * OneMissingByte, t[0]);
    assert FoldLeft(3 * OneMissingByte, t) == FoldLeft(w1, t[1..]);
    var w2 := FoldStep(w1, t[1]);
    assert FoldLeft(w1, t[1..]) == FoldLeft(w2, t[2..]);
    assert FoldLeft(w2, t[2..]) == FoldLeft(FoldStep(w2, t[2]), []) by {
      assert t[2..][1..] == [];
    }
  }

  /** Symbol `i` of a word, counting down from 3 for the first: `=` for the
      positions of missing bytes, otherwise the six bits at `6 * i` of the
      word aligned so that the bytes start at bit 23. */
  function Symbol(w: bv32, i: bv32): Char8
    requires i < 4 && w >> 24 <= 2
  {
    var numMissing := w >> 24;
    if i < numMissing then Pad else Base64Chars[SymbolIndex(w, i) as int]
  }

  /** The alphabet position `Symbol` looks up. */
  function SymbolIndex(w: bv32, i: bv32): (v: bv8)
    requires i < 4 && w >> 24 <= 2
    ensures v < 64
  {
    var numMissing := w >> 24;
    (((w << (8 * numMissing)) >> (6 * i)) & 0x3F) as bv8
  }

  /** The four symbols of one chunk of one to three bytes. */
  function EncodeChunk(t: seq<byte>): seq<Char8>
    requires 1 <= |t| <= 3
  {
    var w := PackChunk(t);
    [Symbol(w, 3), Symbol(w, 2), Symbol(w, 1), Symbol(w, 0)]
  }

  /** `bytes | encode64`: four symbols per chunk of three bytes, the last
      chunk possibly shorter. */
  function Encode(bytes: seq<byte>): seq<Char8>
    decreases |bytes|
  {
    if |bytes| == 0 then []
    else
      var n := Min(3, |bytes|);
      EncodeChunk(bytes[..n]) + Encode(bytes[n..])
  }

  /** Sextet `k` of a chunk, first sextet first, laid out as section 4 of
      RFC 4648 does: the bytes concatenated most significant first, missing
      bytes read as zero, cut into groups of six bits. */
  function RfcSextet(t: seq<byte>, k: nat): bv8
    requires 1 <= |t| <= 3 && k < 4
  {
    var b0 := t[0];
    var b1 := if |t| > 1 then t[1] else 0;
    var b2 := if |t| > 2 then t[2] else 0;
    if k == 0 then b0 >> 2
    else if k == 1 then ((b0 & 3) << 4) | (b1 >> 4)
    else if k == 2 then ((b1 & 15) << 2) | (b2 >> 6)
    else b2 & 63
  }

  lemma IndicesOneByte(a: byte)
    ensures SymbolIndex(0x200_0000 | a as bv32, 3) == a >> 2
    ensures SymbolIndex(0x200_0000 | a as bv32, 2) == (a & 3) << 4
  {
  }

  lemma IndicesTwoBytes(a: byte, b: byte)
    ensures SymbolIndex(0x100_0000 | (a as bv32 << 8) | b as bv32, 3) == a >> 2
    ensures SymbolIndex(0x100_0000 | (a as bv32 << 8) | b as bv32, 2) == ((a & 3) << 4) | (b >> 4)
    ensures SymbolIndex(0x100_0000 | (a as bv32 << 8) | b as bv32, 1) == (b & 15) << 2
  {
  }

  lemma IndicesThreeBytes(a: byte, b: byte, c: byte)
    ensures SymbolIndex((a as bv32 << 16) | (b as bv32 << 8) | c as bv32, 3) == a >> 2
    ensures SymbolIndex((a as bv32 << 16) | (b as bv32 << 8) | c as bv32, 2) == ((a & 3) << 4) | (b >> 4)
    ensures SymbolIndex((a as bv32 << 16) | (b as bv32 << 8) | c as bv32, 1) == ((b & 15) << 2) | (c >> 6)
    ensures SymbolIndex((a as bv32 << 16) | (b as bv32 << 8) | c as bv32, 0) == c & 63
  {
  }

  /** The four symbols of a chunk of `n` bytes are the alphabet symbols of
      its first `n + 1` sextets followed by `3 - n` padding symbols. */
  lemma EncodeChunkSextets(t: seq<byte>)
    requires 1 <= |t| <= 3
    ensures |EncodeChunk(t)| == 4
    ensures forall k :: 0 <= k <= |t| ==> EncodeChunk(t)[k] == Base64Chars[RfcSextet(t, k) as int]
    ensures forall k :: |t| < k < 4 ==> EncodeChunk(t)[k] == Pad
  {
    var r := EncodeChunk(t);
    if |t| == 1 {
      ChunkOfOne(t);
    } else if |t| == 2 {
      ChunkOfTwo(t);
    } else {
      ChunkOfThree(t);
    }
  }

  lemma ChunkOfOne(t: seq<byte>)
    requires |t| == 1
    ensures EncodeChunk(t)
         == [Base64Chars[RfcSextet(t, 0) as int], Base64Chars[RfcSextet(t, 1) as int], Pad, Pad]
  {
    FoldOneByte(t);
    var w := PackChunk(t);
    assert w == 0x200_0000 | t[0] as bv32;
    ByteFits(t[0]);
    TopOf(0x200_0000, t[0] as bv32);
    IndicesOneByte(t[0]);
  }

  lemma ChunkOfTwo(t: seq<byte>)
    requires |t| == 2
    ensures EncodeChunk(t)
         == [Base64Chars[RfcSextet(t, 0) as int], Base64Chars[RfcSextet(t, 1) as int],
             Base64Chars[RfcSextet(t, 2) as int], Pad]
  {
    FoldTwoBytes(t);
    var w := PackChunk(t);
    var low := (t[0] as bv32 << 8) | t[1] as bv32;
    assert w == 0x100_0000 | low;
    TwoBytesFit(t[0], t[1]);
    TopOf(0x100_0000, low);
    IndicesTwoBytes(t[0], t[1]);
  }

  lemma ChunkOfThree(t: seq<byte>)
    requires |t| == 3
    ensures EncodeChunk(t)
         == [Base64Chars[RfcSextet(t, 0) as int], Base64Chars[RfcSextet(t, 1) as int],
             Base64Chars[RfcSextet(t, 2) as int], Base64Chars[RfcSextet(t, 3) as int]]
  {
    FoldThreeBytes(t);
    var w := PackChunk(t);
    var low := (t[0] as bv32 << 16) | (t[1] as bv32 << 8) | t[2] as bv32;
    assert w == low;
    ThreeBytesFit(t[0], t[1], t[2]);
    TopOf(0, low);
    IndicesThreeBytes(t[0], t[1], t[2]);
  }
}
