/** The round trip between the encoder and the decoder: decoding an
    encoding gives the bytes back, and re-encoding what a decode wrote gives
    the input back exactly when no group but the last holds `=`. The
    encoder's sextets are bit operations on bytes and the decoder's word is
    a number; the first part of this module relates the two. */
module RoundTrip {
  import opened Base64Types
  import opened Alphabet
  import opened Encode64
  import opened Decode64
  import opened DecodeFacts
  import opened EncodeFacts

  /** Byte `i` of a chunk as a number, zero past its end. */
  function ByteAt(t: seq<byte>, i: nat): (v: nat)
    ensures v < 256
  {
    if i < |t| then t[i] as int else 0
  }

  /** The sextets of three bytes, stated on numbers. */
  function SextetFromBytes(x0: nat, x1: nat, x2: nat, k: nat): nat
  {
    if k == 0 then x0 / 4
    else if k == 1 then (x0 % 4) * 16 + x1 / 16
    else if k == 2 then (x1 % 16) * 4 + x2 / 64
    else x2 % 64
  }

  /** The shifts and masks of `RfcSextet`, read as division and
      remainder. */
  lemma HighSextet(a: byte)
    ensures (a >> 2) as int == a as int / 4
  {
  }

  lemma Shr4(a: byte)
    ensures (a >> 4) as int == a as int / 16
  {
  }

  lemma Shr6(a: byte)
    ensures (a >> 6) as int == a as int / 64
  {
  }

  lemma And3(a: byte)
    ensures (a & 3) as int == a as int % 4
  {
  }

  lemma And15(a: byte)
    ensures (a & 15) as int == a as int % 16
  {
  }

  lemma LowSextet(c: byte)
    ensures (c & 63) as int == c as int % 64
  {
  }

  lemma MiddleSextet(a: byte, b: byte)
    ensures (((a & 3) << 4) | (b >> 4)) as int == (a as int % 4) * 16 + b as int / 16
  {
    var v := ((a & 3) << 4) | (b >> 4);
    assert v >> 4 == a & 3 && v & 15 == b >> 4;
    Shr4(v);
    And15(v);
    And3(a);
    Shr4(b);
  }

  lemma ThirdSextet(b: byte, c: byte)
    ensures (((b & 15) << 2) | (c >> 6)) as int == (b as int % 16) * 4 + c as int / 64
  {
    var v := ((b & 15) << 2) | (c >> 6);
    assert v >> 2 == b & 15 && v & 3 == c >> 6;
    HighSextet(v);
    And3(v);
    And15(b);
    Shr6(c);
  }

  /** Sextet `k` of a chunk as a number. */
  function SextetValue(t: seq<byte>, k: nat): nat
    requires 1 <= |t| <= 3 && k < 4
  {
    RfcSextet(t, k) as int
  }

  /** Sextet `k` of a chunk, computed on the numbers of its bytes. */
  lemma RfcSextetArith(t: seq<byte>, k: nat)
    requires 1 <= |t| <= 3 && k < 4
    ensures SextetValue(t, k) == SextetFromBytes(ByteAt(t, 0), ByteAt(t, 1), ByteAt(t, 2), k)
  {
    if k == 0 {
      FirstSextetArith(t);
    } else if k == 1 {
      SecondSextetArith(t);
    } else if k == 2 {
      ThirdSextetArith(t);
    } else {
      FourthSextetArith(t);
    }
  }

  lemma FirstSextetArith(t: seq<byte>)
    requires 1 <= |t| <= 3
    ensures SextetValue(t, 0) == ByteAt(t, 0) / 4
  {
    assert RfcSextet(t, 0) == t[0] >> 2;
    HighSextet(t[0]);
  }

  lemma SecondSextetArith(t: seq<byte>)
    requires 1 <= |t| <= 3
    ensures SextetValue(t, 1) == (ByteAt(t, 0) % 4) * 16 + ByteAt(t, 1) / 16
  {
    var b1: byte := if |t| > 1 then t[1] else 0;
    assert RfcSextet(t, 1) == ((t[0] & 3) << 4) | (b1 >> 4);
    MiddleSextet(t[0], b1);
  }

  lemma ThirdSextetArith(t: seq<byte>)
    requires 1 <= |t| <= 3
    ensures SextetValue(t, 2) == (ByteAt(t, 1) % 16) * 4 + ByteAt(t, 2) / 64
  {
    var b1: byte := if |t| > 1 then t[1] else 0;
    var b2: byte := if |t| > 2 then t[2] else 0;
    assert RfcSextet(t, 2) == ((b1 & 15) << 2) | (b2 >> 6);
    ThirdSextet(b1, b2);
  }

  lemma FourthSextetArith(t: seq<byte>)
    requires 1 <= |t| <= 3
    ensures SextetValue(t, 3) == ByteAt(t, 2) % 64
  {
    var b2: byte := if |t| > 2 then t[2] else 0;
    assert RfcSextet(t, 3) == b2 & 63;
    LowSextet(b2);
  }

  /** The 24-bit value of a chunk, first byte most significant, missing
      bytes zero. */
  function ChunkValue(t: seq<byte>): nat
  {
    ByteAt(t, 0) * 0x1_0000 + ByteAt(t, 1) * 0x100 + ByteAt(t, 2)
  }

  /** Quotient and remainder of `q * d + r` for a remainder below `d`. */
  lemma DivMod(n: int, q: int, r: int, d: int)
    requires d > 0 && 0 <= r < d && n == q * d + r
    ensures n / d == q && n % d == r
  {
    var q', r' := n / d, n % d;
    assert (q - q') * d == r' - r;
    if q > q' {
      MulAtLeast(q - q', d);
    } else if q < q' {
      MulAtLeast(q' - q, d);
    }
  }

  lemma MulAtLeast(k: int, d: int)
    requires k >= 1 && d > 0
    ensures k * d >= d
  {
  }

  /** The four sextets of three bytes, side by side, are the bytes. */
  lemma WordOfBytes(x0: nat, x1: nat, x2: nat)
    requires x0 < 256 && x1 < 256 && x2 < 256
    ensures GroupWord(SextetFromBytes(x0, x1, x2, 0), SextetFromBytes(x0, x1, x2, 1),
                      SextetFromBytes(x0, x1, x2, 2), SextetFromBytes(x0, x1, x2, 3))
         == x0 * 0x1_0000 + x1 * 0x100 + x2
  {
    DivMod(x0, x0 / 4, x0 % 4, 4);
    DivMod(x1, x1 / 16, x1 % 16, 16);
    DivMod(x2, x2 / 64, x2 % 64, 64);
  }

  /** The bytes of a 24-bit value. */
  lemma BytesOfWord(x0: nat, x1: nat, x2: nat)
    requires x0 < 256 && x1 < 256 && x2 < 256
    ensures var w := x0 * 0x1_0000 + x1 * 0x100 + x2;
            (w / 0x1_0000) % 256 == x0 && (w / 0x100) % 256 == x1 && w % 256 == x2
  {
    var w := x0 * 0x1_0000 + x1 * 0x100 + x2;
    DivMod(w, x0, x1 * 0x100 + x2, 0x1_0000);
    DivMod(x0, 0, x0, 256);
    DivMod(w, x0 * 0x100 + x1, x2, 0x100);
    DivMod(x0 * 0x100 + x1, x0, x1, 256);
  }

  /** The bytes of the word of four sextets, and the bits the canonical
      test looks at. */
  lemma SplitWord(a: nat, b: nat, c: nat, d: nat)
    requires a < 64 && b < 64 && c < 64 && d < 64
    ensures var w := GroupWord(a, b, c, d);
            && w == (a * 4 + b / 16) * 0x1_0000 + ((b % 16) * 16 + c / 4) * 0x100 + ((c % 4) * 64 + d)
            && a * 4 + b / 16 < 256 && (b % 16) * 16 + c / 4 < 256 && (c % 4) * 64 + d < 256
            && (w / 0x40) % 4 == c % 4 && (w / 0x1000) % 16 == b % 16
  {
    var w := GroupWord(a, b, c, d);
    DivMod(b, b / 16, b % 16, 16);
    DivMod(c, c / 4, c % 4, 4);
    DivMod(w, a * 0x1000 + b * 0x40 + c, d, 0x40);
    DivMod(a * 0x1000 + b * 0x40 + c, a * 0x400 + b * 0x10 + c / 4, c % 4, 4);
    DivMod(w, a * 0x40 + b, c * 0x40 + d, 0x1000);
    DivMod(a * 0x40 + b, a * 4 + b / 16, b % 16, 16);
  }

  /** The sextets of the bytes of a word of four sextets are those
      sextets. */
  lemma SextetsOfSplit(a: nat, b: nat, c: nat, d: nat)
    requires a < 64 && b < 64 && c < 64 && d < 64
    ensures var x0, x1, x2 := a * 4 + b / 16, (b % 16) * 16 + c / 4, (c % 4) * 64 + d;
            && SextetFromBytes(x0, x1, x2, 0) == a && SextetFromBytes(x0, x1, x2, 1) == b
            && SextetFromBytes(x0, x1, x2, 2) == c && SextetFromBytes(x0, x1, x2, 3) == d
            && SextetFromBytes(x0, x1, 0, 2) == c - c % 4 && SextetFromBytes(x0, 0, 0, 1) == b - b % 16
  {
    DivMod(b, b / 16, b % 16, 16);
    DivMod(c, c / 4, c % 4, 4);
    DivMod(a * 4 + b / 16, a, b / 16, 4);
    DivMod((b % 16) * 16 + c / 4, b % 16, c / 4, 16);
    DivMod((c % 4) * 64 + d, c % 4, d, 64);
  }

  /** A number below 256 survives the trip through a byte. The direct
      conversion is expensive for the solver; the byte is built from its two
      nibbles instead, and a byte read as a number converts back to itself. */
  lemma IntOfByte(x: int)
    requires 0 <= x < 256
    ensures (x as byte) as int == x
  {
    var y := FromNibbles(x / 16, x % 16);
    assert y as int == x;
    ByteOfInt(y);
    assert x as byte == y;
  }

  /** The byte whose high and low nibbles are `h` and `l`. */
  function FromNibbles(h: int, l: int): (y: byte)
    requires 0 <= h < 16 && 0 <= l < 16
    ensures y as int == 16 * h + l
  {
    NibblesOfByte(h as bv4, l as bv4);
    IntOfNibble(h);
    IntOfNibble(l);
    ((h as bv4) as byte << 4) | (l as bv4) as byte
  }

  lemma NibblesOfByte(h: bv4, l: bv4)
    ensures (((h as byte) << 4) | l as byte) as int == 16 * (h as int) + l as int
  {
  }

  lemma IntOfNibble(h: int)
    requires 0 <= h < 16
    ensures (h as bv4) as int == h
  {
  }

  lemma ByteOfInt(y: byte)
    ensures (y as int) as byte == y
  {
  }

  /** The sextets of a chunk are below 64, and zero past the sextets its
      bytes fill. */
  lemma ChunkSextetBounds(t: seq<byte>, k: nat)
    requires 1 <= |t| <= 3 && k < 4
    ensures SextetValue(t, k) < 64
    ensures k > |t| ==> SextetValue(t, k) == 0
  {
    RfcSextetArith(t, k);
  }

  /** The word the decoder assembles from a chunk's sextets is the chunk's
      value. */
  lemma ChunkSextetWord(t: seq<byte>)
    requires 1 <= |t| <= 3
    ensures GroupWord(SextetValue(t, 0), SextetValue(t, 1), SextetValue(t, 2), SextetValue(t, 3)) == ChunkValue(t)
  {
    FirstSextetArith(t);
    SecondSextetArith(t);
    ThirdSextetArith(t);
    FourthSextetArith(t);
    WordFromSextets(SextetValue(t, 0), SextetValue(t, 1), SextetValue(t, 2), SextetValue(t, 3),
                    ByteAt(t, 0), ByteAt(t, 1), ByteAt(t, 2));
  }

  lemma WordFromSextets(a: nat, b: nat, c: nat, d: nat, x0: nat, x1: nat, x2: nat)
    requires x0 < 256 && x1 < 256 && x2 < 256
    requires a == x0 / 4 && b == (x0 % 4) * 16 + x1 / 16 && c == (x1 % 16) * 4 + x2 / 64 && d == x2 % 64
    ensures GroupWord(a, b, c, d) == x0 * 0x1_0000 + x1 * 0x100 + x2
  {
    WordOfBytes(x0, x1, x2);
  }

  /** The bits a short chunk leaves out of its word are zero. */
  lemma ChunkCanonical(t: seq<byte>)
    requires 1 <= |t| <= 3
    ensures !NonCanonicalWord(ChunkValue(t), 3 - |t|)
  {
    var x0, x1 := ByteAt(t, 0), ByteAt(t, 1);
    if |t| == 2 {
      DivMod(ChunkValue(t), x0 * 0x400 + x1 * 4, 0, 0x40);
      DivMod(x0 * 0x400 + x1 * 4, x0 * 0x100 + x1, 0, 4);
    } else if |t| == 1 {
      DivMod(ChunkValue(t), x0 * 16, 0, 0x1000);
      DivMod(x0 * 16, x0, 0, 16);
    }
  }

  /** The bytes the decoder takes from a chunk's value are the chunk. */
  lemma ChunkBytes(t: seq<byte>)
    requires 1 <= |t| <= 3
    ensures GroupBytes(ChunkValue(t), 3 - |t|) == t
  {
    var w := ChunkValue(t);
    BytesOfWord(ByteAt(t, 0), ByteAt(t, 1), ByteAt(t, 2));
    forall k | 0 <= k < |t|
      ensures WordByte(w, k) == t[k]
    {
      assert (t[k] as int) as byte == t[k];
    }
  }

  /** The symbols of an encoded chunk, read back one at a time: the first
      `|t| + 1` are alphabet symbols standing for the chunk's sextets, the
      rest are `=`. */
  lemma ChunkSymbols(s: seq<Char8>, p: nat, t: seq<byte>)
    requires 1 <= |t| <= 3 && p + 4 <= |s| && s[p..p + 4] == EncodeChunk(t)
    ensures forall r :: p <= r < p + 4 ==>
              && IsSymbol(s[r]) && (s[r] == Pad <==> r > p + |t|) && SextetOf(s[r]) == SextetValue(t, r - p)
  {
    EncodeChunkSextets(t);
    forall r | p <= r < p + 4
      ensures IsSymbol(s[r]) && (s[r] == Pad <==> r > p + |t|) && SextetOf(s[r]) == SextetValue(t, r - p)
    {
      var k := r - p;
      assert s[r] == EncodeChunk(t)[k];
      ChunkSextetBounds(t, k);
      if k <= |t| {
        var i := SextetValue(t, k);
        assert s[r] == Base64Chars[i];
        PositionOfAlphabet(i);
        AlphabetDistinct(i, (i + 1) % 64);
      } else {
        assert s[r] == Pad;
      }
    }
  }

  /** The group of an encoded chunk has no fault. */
  lemma ChunkClean(s: seq<Char8>, p: nat, t: seq<byte>)
    requires 1 <= |t| <= 3 && p + 4 <= |s|
    requires forall r :: p <= r < p + 4 ==> IsSymbol(s[r]) && (s[r] == Pad <==> r > p + |t|)
    ensures Clean(s, p, p + 4) && PadsAtEnd(s, p, p + 4, 3 - |t|)
  {
  }

  /** The decoder accepts the group of an encoded chunk and writes the
      chunk. */
  lemma ChunkDecodes(s: seq<Char8>, p: nat, t: seq<byte>)
    requires 1 <= |t| <= 3 && p + 4 <= |s| && s[p..p + 4] == EncodeChunk(t)
    ensures DecodeGroup(DecodeTable(), s, p) == GroupOk(t)
  {
    ChunkSymbols(s, p, t);
    ChunkClean(s, p, t);
    PadsCounted(s, p, 3 - |t|);
    ChunkSextetWord(t);
    assert s[p + 0] == s[p];
    ChunkCanonical(t);
    GroupValid(s, p);
    ChunkBytes(t);
  }

  /** Decoding from `p`, where the rest of the input is the encoding of
      `bytes`, reads to the end and writes `bytes`. */
  lemma {:induction false} DecodeEncodedFrom(s: seq<Char8>, p: nat, bytes: seq<byte>)
    requires p <= |s| && s[p..] == Encode(bytes)
    ensures DecodeFrom(DecodeTable(), s, p) == Done(|s|, bytes)
    decreases |bytes|
  {
    if |bytes| == 0 {
      assert |s[p..]| == 0;
    } else {
      var n := Min(3, |bytes|);
      var chunk, rest := bytes[..n], bytes[n..];
      EncodedSplit(s, p, bytes);
      ChunkDecodes(s, p, chunk);
      DecodeEncodedFrom(s, p + 4, rest);
      assert DecodeFrom(DecodeTable(), s, p) == DecodeGroupThen(DecodeTable(), s, p);
    }
  }

  /** An encoding from `p` is the first chunk's four symbols, then the
      encoding of the rest. */
  lemma EncodedSplit(s: seq<Char8>, p: nat, bytes: seq<byte>)
    requires p <= |s| && s[p..] == Encode(bytes) && |bytes| > 0
    ensures var n := Min(3, |bytes|);
            && p + 4 <= |s| && s[p..p + 4] == EncodeChunk(bytes[..n]) && s[p + 4..] == Encode(bytes[n..])
            && bytes[..n] + bytes[n..] == bytes
  {
    var n := Min(3, |bytes|);
    assert s[p..] == EncodeChunk(bytes[..n]) + Encode(bytes[n..]);
    SliceSplit(s, p, EncodeChunk(bytes[..n]), Encode(bytes[n..]));
    TakeDrop(bytes, n);
  }

  lemma TakeDrop<T>(x: seq<T>, n: nat)
    requires n <= |x|
    ensures x[..n] + x[n..] == x
  {
  }

  /** A suffix that is `a + b` holds `a` first, then `b`. */
  lemma SliceSplit<T>(s: seq<T>, p: nat, a: seq<T>, b: seq<T>)
    requires p <= |s| && s[p..] == a + b
    ensures p + |a| <= |s| && s[p..p + |a|] == a && s[p + |a|..] == b
  {
    assert s[p..p + |a|] == s[p..][..|a|];
    assert s[p + |a|..] == s[p..][|a|..];
  }

  /** Decoding an encoding succeeds, reads all of it, and gives back the
      bytes encoded. */
  lemma DecodeEncode(bytes: seq<byte>)
    ensures Decode(Encode(bytes)) == Done(|Encode(bytes)|, bytes)
  {
    var s := Encode(bytes);
    assert s[0..] == s;
    DecodeEncodedFrom(s, 0, bytes);
  }

  /** The number of `=` a clean group ends in, read from its last two
      symbols. */
  function TrailingPads(s: seq<Char8>, p: nat): nat
    requires p + 4 <= |s|
  {
    if s[p + 2] == Pad then 2 else if s[p + 3] == Pad then 1 else 0
  }

  /** A clean group is symbols of the alphabet followed by at most two
      `=`. */
  lemma GroupShape(s: seq<Char8>, p: nat)
    requires p + 4 <= |s| && Clean(s, p, p + 4)
    ensures PadsAtEnd(s, p, p + 4, TrailingPads(s, p)) && PadCount(s[p..p + 4]) == TrailingPads(s, p)
    ensures forall r :: p <= r < p + 4 ==> IsSymbol(s[r])
  {
    assert Fault(s, p, p).None? && Fault(s, p, p + 1).None?;
    forall r | p <= r < p + 4
      ensures IsSymbol(s[r])
    {
      assert Fault(s, p, r).None?;
    }
    if s[p + 2] == Pad {
      assert Fault(s, p, p + 3).None?;
      assert p <= p + 2 < p + 3 && s[p + 2] == Pad;
    }
    PadsCounted(s, p, TrailingPads(s, p));
  }

  /** The bytes a valid group decodes to. */
  function ValidGroupBytes(s: seq<Char8>, p: nat): (t: seq<byte>)
    requires p + 4 <= |s|
    ensures |t| == 3 - TrailingPads(s, p)
  {
    GroupBytes(GroupWord(SextetOf(s[p]), SextetOf(s[p + 1]), SextetOf(s[p + 2]), SextetOf(s[p + 3])),
               TrailingPads(s, p))
  }

  /** The bytes a group writes, as numbers: those of its word, as many as
      it writes. */
  lemma GroupByteValues(w: nat, np: nat, x0: nat, x1: nat, x2: nat)
    requires np <= 2 && x0 < 256 && x1 < 256 && x2 < 256 && w == x0 * 0x1_0000 + x1 * 0x100 + x2
    ensures var t := GroupBytes(w, np);
            && ByteAt(t, 0) == x0 && ByteAt(t, 1) == (if np < 2 then x1 else 0)
            && ByteAt(t, 2) == (if np < 1 then x2 else 0)
  {
    BytesOfWord(x0, x1, x2);
    var t := GroupBytes(w, np);
    WordByteValue(w, 0, x0);
    assert ByteAt(t, 0) == WordByte(w, 0) as int;
    if np < 2 {
      WordByteValue(w, 1, x1);
      assert ByteAt(t, 1) == WordByte(w, 1) as int;
    }
    if np < 1 {
      WordByteValue(w, 2, x2);
      assert ByteAt(t, 2) == WordByte(w, 2) as int;
    }
  }

  /** Byte `k` of a word, as a number. */
  lemma WordByteValue(w: nat, k: nat, x: nat)
    requires k < 3 && x < 256
    requires k == 0 ==> (w / 0x1_0000) % 256 == x
    requires k == 1 ==> (w / 0x100) % 256 == x
    requires k == 2 ==> w % 256 == x
    ensures WordByte(w, k) as int == x
  {
    assert WordByte(w, k) == x as byte;
    IntOfByte(x);
  }

  /** The sextets of the bytes of a canonical word are its own: the bits
      the missing bytes would hold are zero, and so are the sextets of the
      `=`. */
  lemma CanonicalSextets(a: nat, b: nat, c: nat, d: nat, np: nat)
    requires a < 64 && b < 64 && c < 64 && d < 64 && np <= 2
    requires !NonCanonicalWord(GroupWord(a, b, c, d), np)
    requires np >= 1 ==> d == 0
    requires np == 2 ==> c == 0
    ensures var x0, x1, x2 := a * 4 + b / 16, (b % 16) * 16 + c / 4, (c % 4) * 64 + d;
            var y1, y2 := (if np < 2 then x1 else 0), (if np < 1 then x2 else 0);
            && SextetFromBytes(x0, y1, y2, 0) == a && SextetFromBytes(x0, y1, y2, 1) == b
            && SextetFromBytes(x0, y1, y2, 2) == c && SextetFromBytes(x0, y1, y2, 3) == d
  {
    SplitWord(a, b, c, d);
    SextetsOfSplit(a, b, c, d);
  }

  /** The sextets of the bytes of a valid group are the sextets of its
      symbols: a canonical group loses no bit. */
  lemma GroupSextets(s: seq<Char8>, p: nat)
    requires ValidGroup(s, p)
    ensures forall r :: p <= r < p + 4 ==> SextetValue(ValidGroupBytes(s, p), r - p) == SextetOf(s[r])
  {
    GroupShape(s, p);
    var np := TrailingPads(s, p);
    var a, b, c, d := SextetOf(s[p]), SextetOf(s[p + 1]), SextetOf(s[p + 2]), SextetOf(s[p + 3]);
    WordSextets(a, b, c, d, np);
    var t := ValidGroupBytes(s, p);
    forall r | p <= r < p + 4
      ensures SextetValue(t, r - p) == SextetOf(s[r])
    {
      if r == p {
      } else if r == p + 1 {
      } else if r == p + 2 {
      } else {
      }
    }
  }

  /** The bytes of a canonical word of four sextets have those sextets. */
  lemma WordSextets(a: nat, b: nat, c: nat, d: nat, np: nat)
    requires a < 64 && b < 64 && c < 64 && d < 64 && np <= 2
    requires !NonCanonicalWord(GroupWord(a, b, c, d), np)
    requires np >= 1 ==> d == 0
    requires np == 2 ==> c == 0
    ensures var t := GroupBytes(GroupWord(a, b, c, d), np);
            && SextetValue(t, 0) == a && SextetValue(t, 1) == b
            && SextetValue(t, 2) == c && SextetValue(t, 3) == d
  {
    SplitWord(a, b, c, d);
    var x0, x1, x2 := a * 4 + b / 16, (b % 16) * 16 + c / 4, (c % 4) * 64 + d;
    var y1, y2 := (if np < 2 then x1 else 0), (if np < 1 then x2 else 0);
    GroupByteValues(GroupWord(a, b, c, d), np, x0, x1, x2);
    CanonicalSextets(a, b, c, d, np);
    SextetsOfBytes(GroupBytes(GroupWord(a, b, c, d), np), x0, y1, y2, a, b, c, d);
  }

  /** The sextets of a chunk whose bytes have the given values. */
  lemma SextetsOfBytes(t: seq<byte>, x0: nat, x1: nat, x2: nat, a: nat, b: nat, c: nat, d: nat)
    requires 1 <= |t| <= 3 && ByteAt(t, 0) == x0 && ByteAt(t, 1) == x1 && ByteAt(t, 2) == x2
    requires SextetFromBytes(x0, x1, x2, 0) == a && SextetFromBytes(x0, x1, x2, 1) == b
    requires SextetFromBytes(x0, x1, x2, 2) == c && SextetFromBytes(x0, x1, x2, 3) == d
    ensures SextetValue(t, 0) == a && SextetValue(t, 1) == b && SextetValue(t, 2) == c && SextetValue(t, 3) == d
  {
    RfcSextetArith(t, 0);
    RfcSextetArith(t, 1);
    RfcSextetArith(t, 2);
    RfcSextetArith(t, 3);
  }

  /** Encoding the bytes of a valid group gives the group back. */
  lemma GroupReencodes(s: seq<Char8>, p: nat)
    requires ValidGroup(s, p)
    ensures 1 <= |ValidGroupBytes(s, p)| <= 3 && EncodeChunk(ValidGroupBytes(s, p)) == s[p..p + 4]
  {
    var t := ValidGroupBytes(s, p);
    GroupShape(s, p);
    GroupSextets(s, p);
    EncodeChunkSextets(t);
    forall k | 0 <= k < 4
      ensures EncodeChunk(t)[k] == s[p..p + 4][k]
    {
      var c := s[p + k];
      assert s[p..p + 4][k] == c;
      if k <= |t| {
        assert c != Pad && SextetValue(t, k) == SextetOf(c);
        PositionFound(c);
      }
    }
  }

  /** The decoder writes the bytes of a valid group. */
  lemma GroupDecodes(s: seq<Char8>, p: nat)
    requires ValidGroup(s, p)
    ensures DecodeGroup(DecodeTable(), s, p) == GroupOk(ValidGroupBytes(s, p))
  {
    GroupShape(s, p);
    GroupValid(s, p);
  }

  /** No `=` before the last group of four symbols. */
  ghost predicate PaddingOnlyAtEnd(s: seq<Char8>, p: nat)
  {
    forall k :: p <= k && k + 4 < |s| ==> s[k] != Pad
  }

  /** Re-encoding what a successful decode from `p` writes gives the input
      from `p` on, when no group but the last holds `=`. */
  lemma {:induction false} ReencodeFrom(s: seq<Char8>, p: nat)
    requires p <= |s| && DecodeFrom(DecodeTable(), s, p).Done? && PaddingOnlyAtEnd(s, p)
    ensures Encode(DecodeFrom(DecodeTable(), s, p).bytes) == s[p..]
    decreases |s| - p
  {
    var table := DecodeTable();
    if p == |s| {
      assert s[p..] == [];
    } else {
      assert DecodeFrom(table, s, p) == DecodeGroupThen(table, s, p);
      GroupValid(s, p);
      GroupDecodes(s, p);
      var t := ValidGroupBytes(s, p);
      var rest := DecodeFrom(table, s, p + 4);
      assert DecodeFrom(table, s, p) == Prepend(t, rest);
      ReencodeFrom(s, p + 4);
      GroupReencodes(s, p);
      if |t| < 3 {
        LastGroup(s, p);
      }
      ReencodeStep(s, p, t, rest.bytes);
    }
  }

  /** A group holding `=` that the decoder accepts, followed by groups it
      also accepts, is the last group when no earlier group holds `=`. */
  lemma LastGroup(s: seq<Char8>, p: nat)
    requires ValidGroup(s, p) && TrailingPads(s, p) > 0 && PaddingOnlyAtEnd(s, p)
    requires DecodeFrom(DecodeTable(), s, p + 4).Done?
    ensures p + 4 == |s| && DecodeFrom(DecodeTable(), s, p + 4) == Done(|s|, [])
  {
    GroupShape(s, p);
    assert s[p + 3] == Pad;
    if p + 4 < |s| {
      assert false;
    }
  }

  /** One group re-encoded in front of the rest. */
  lemma ReencodeStep(s: seq<Char8>, p: nat, t: seq<byte>, more: seq<byte>)
    requires 1 <= |t| <= 3 && p + 4 <= |s| && EncodeChunk(t) == s[p..p + 4] && Encode(more) == s[p + 4..]
    requires |t| < 3 ==> p + 4 == |s| && more == []
    ensures Encode(t + more) == s[p..]
  {
    assert s[p..] == s[p..p + 4] + s[p + 4..];
    EncodeOneChunk(t);
    if |t| == 3 {
      EncodeConcat(t, more);
    } else {
      assert t + more == t;
    }
  }

  /** Re-encoding the bytes of a successful decode gives back the input
      exactly when no group but the last holds `=`: the decoder also
      accepts a padded group in the middle, whose re-encoding differs. */
  lemma EncodeDecode(s: seq<Char8>)
    requires Decode(s).Done?
    ensures Encode(Decode(s).bytes) == s <==> PaddingOnlyAtEnd(s, 0)
  {
    var bytes := Decode(s).bytes;
    if PaddingOnlyAtEnd(s, 0) {
      ReencodeFrom(s, 0);
      assert s[0..] == s;
    }
    EncodeShape(bytes);
  }

  /** "TWFu", "TWE=" and "TQ==" decode to the bytes of "Man", "Ma" and
      "M". */
  lemma DecodesMan(s: seq<Char8>, m: string)
    requires s == "TWFu" && m == "Man"
    ensures Decode(s) == Done(4, Ascii(m))
  {
    EncodesMan(m);
    DecodeEncode(Ascii(m));
  }

  lemma DecodesMa(s: seq<Char8>, m: string)
    requires s == "TWE=" && m == "Ma"
    ensures Decode(s) == Done(4, Ascii(m))
  {
    EncodesMa(m);
    DecodeEncode(Ascii(m));
  }

  lemma DecodesM(s: seq<Char8>, m: string)
    requires s == "TQ==" && m == "M"
    ensures Decode(s) == Done(4, Ascii(m))
  {
    EncodesM(m);
    DecodeEncode(Ascii(m));
  }

  /** A padded group in the middle of the input is accepted: "TQ==TWFu"
      decodes to the bytes of "M" then "Man". */
  lemma InteriorPadding(s: seq<Char8>, m: string, man: string)
    requires s == "TQ==TWFu" && m == "M" && man == "Man"
    ensures Decode(s) == Done(8, Ascii(m) + Ascii(man))
  {
    EncodesM(m);
    EncodesMan(man);
    EncodeOneChunk(Ascii(m));
    assert s == Encode(Ascii(m)) + Encode(Ascii(man));
    SliceSplit(s, 0, Encode(Ascii(m)), Encode(Ascii(man)));
    DecodeChunkThenEncoded(s, Ascii(m), Ascii(man));
  }

  /** One group of the encoding of `t`, followed by the encoding of
      `rest`, decodes to `t + rest`, whatever padding the group holds. */
  lemma DecodeChunkThenEncoded(s: seq<Char8>, t: seq<byte>, rest: seq<byte>)
    requires 1 <= |t| <= 3 && 4 <= |s| && s[0..4] == EncodeChunk(t) && s[4..] == Encode(rest)
    ensures Decode(s) == Done(|s|, t + rest)
  {
    ChunkDecodes(s, 0, t);
    DecodeEncodedFrom(s, 4, rest);
    assert Decode(s) == DecodeGroupThen(DecodeTable(), s, 0);
  }

  /** The bytes "TQ==TWFu" decodes to do not encode as "TQ==TWFu". */
  lemma InteriorPaddingReencoded(s: seq<Char8>)
    requires s == "TQ==TWFu"
    ensures Decode(s).Done? && Encode(Decode(s).bytes) != s
  {
    InteriorPadding(s, "M", "Man");
    EncodeDecode(s);
    assert s[2] == Pad && 2 + 4 < |s|;
  }
}
