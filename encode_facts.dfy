/** What the encoder promises: the length and shape of its output, that it
    works chunk by chunk, and the known encodings of short byte strings. */
module EncodeFacts {
  import opened Base64Types
  import opened Alphabet
  import opened Encode64

  /** The number of `=` the encoding of `n` bytes ends in: none when the
      bytes fill whole chunks, else three less the bytes of the last
      chunk. */
  function PadsFor(n: nat): nat
  {
    (3 - n % 3) % 3
  }

  /** A chunk of `n` bytes encodes as `n + 1` alphabet symbols followed by
      padding. */
  lemma ChunkShape(t: seq<byte>)
    requires 1 <= |t| <= 3
    ensures |EncodeChunk(t)| == 4
    ensures forall k :: 0 <= k < 4 ==> (EncodeChunk(t)[k] == Pad <==> k > |t|)
    ensures forall k :: 0 <= k <= |t| ==> EncodeChunk(t)[k] in Base64Chars
  {
    EncodeChunkSextets(t);
    forall k | 0 <= k <= |t|
      ensures EncodeChunk(t)[k] != Pad
    {
      AlphabetDistinct(RfcSextet(t, k) as int, if RfcSextet(t, k) == 0 then 1 else 0);
    }
  }

  lemma PadsOfChunks(n: nat)
    ensures 1 <= n <= 3 ==> PadsFor(n) == 3 - n
    ensures n > 3 ==> PadsFor(n) == PadsFor(n - 3)
  {
  }

  /** The encoding of `n` bytes is `4 * ceil(n / 3)` symbols; it ends in
      `PadsFor(n)` padding symbols, and every other symbol is one of the 64
      of the alphabet. */
  lemma {:induction false} EncodeShape(bytes: seq<byte>)
    ensures var r := Encode(bytes);
            && |r| == 4 * ((|bytes| + 2) / 3)
            && (|bytes| == 0 <==> r == [])
            && (forall k :: 0 <= k < |r| ==> (r[k] == Pad <==> k >= |r| - PadsFor(|bytes|)))
            && (forall k :: 0 <= k < |r| && r[k] != Pad ==> r[k] in Base64Chars)
    decreases |bytes|
  {
    if |bytes| > 0 {
      var n := Min(3, |bytes|);
      var chunk, rest := bytes[..n], bytes[n..];
      var head, tail := EncodeChunk(chunk), Encode(rest);
      var r := Encode(bytes);
      assert r == head + tail;
      ChunkShape(chunk);
      EncodeShape(rest);
      PadsOfChunks(|bytes|);
      if |bytes| <= 3 {
        assert rest == [];
        assert r == head;
      } else {
        assert |rest| == |bytes| - 3;
        forall k | 0 <= k < |r|
          ensures (r[k] == Pad <==> k >= |r| - PadsFor(|bytes|))
          ensures r[k] != Pad ==> r[k] in Base64Chars
        {
          if k >= 4 {
            assert r[k] == tail[k - 4];
          } else {
            assert r[k] == head[k];
          }
        }
      }
    }
  }

  /** Bytes that fill whole chunks encode on their own: the encoding of
      `a + b` is that of `a` followed by that of `b`. */
  lemma {:induction false} EncodeConcat(a: seq<byte>, b: seq<byte>)
    requires |a| % 3 == 0
    ensures Encode(a + b) == Encode(a) + Encode(b)
    decreases |a|
  {
    if |a| == 0 {
      assert a + b == b;
    } else {
      ThreeLess(|a|);
      assert (a + b)[..3] == a[..3];
      assert (a + b)[3..] == a[3..] + b;
      var c := EncodeChunk(a[..3]);
      calc {
        Encode(a + b);
        c + Encode(a[3..] + b);
        { EncodeConcat(a[3..], b); }
        c + (Encode(a[3..]) + Encode(b));
        { AppendAssoc(c, Encode(a[3..]), Encode(b)); }
        (c + Encode(a[3..])) + Encode(b);
        Encode(a) + Encode(b);
      }
    }
  }

  lemma AppendAssoc<T>(x: seq<T>, y: seq<T>, z: seq<T>)
    ensures x + (y + z) == (x + y) + z
  {
  }

  lemma ThreeLess(n: nat)
    requires n % 3 == 0 && n > 0
    ensures n >= 3 && (n - 3) % 3 == 0
  {
  }

  /** The bytes of an ASCII string. */
  function Ascii(s: string): (bs: seq<byte>)
    requires forall k :: 0 <= k < |s| ==> s[k] as int < 128
    ensures |bs| == |s|
  {
    seq(|s|, k requires 0 <= k < |s| => s[k] as int as byte)
  }

  /** One chunk of one, two or three bytes encodes alone. */
  lemma EncodeOneChunk(t: seq<byte>)
    requires 1 <= |t| <= 3
    ensures Encode(t) == EncodeChunk(t)
  {
    assert t[..Min(3, |t|)] == t;
    assert t[Min(3, |t|)..] == [];
  }

  /** The encoding of "Man" (section 4 of RFC 4648). The input is a
      parameter so that the verifier reasons about the chunk, not about the
      literal. */
  lemma EncodesMan(s: string)
    requires s == "Man"
    ensures Encode(Ascii(s)) == "TWFu"
  {
    var t := Ascii(s);
    assert t == [0x4D, 0x61, 0x6E];
    EncodeOneChunk(t);
    ChunkOfThree(t);
  }

  /** The encoding of "Ma": one `=`. */
  lemma EncodesMa(s: string)
    requires s == "Ma"
    ensures Encode(Ascii(s)) == "TWE="
  {
    var t := Ascii(s);
    assert t == [0x4D, 0x61];
    EncodeOneChunk(t);
    ChunkOfTwo(t);
  }

  /** The encoding of "M": two `=`. */
  lemma EncodesM(s: string)
    requires s == "M"
    ensures Encode(Ascii(s)) == "TQ=="
  {
    var t := Ascii(s);
    assert t == [0x4D];
    EncodeOneChunk(t);
    ChunkOfOne(t);
  }

  /** A chunk encodes as the alphabet symbols of its sextets, padded. */
  lemma EncodesThree(t: seq<byte>, r: seq<Char8>)
    requires |t| == 3
    requires r == [Base64Chars[RfcSextet(t, 0) as int], Base64Chars[RfcSextet(t, 1) as int],
                   Base64Chars[RfcSextet(t, 2) as int], Base64Chars[RfcSextet(t, 3) as int]]
    ensures Encode(t) == r
  {
    EncodeOneChunk(t);
    ChunkOfThree(t);
  }

  lemma EncodesTwo(t: seq<byte>, r: seq<Char8>)
    requires |t| == 2
    requires r == [Base64Chars[RfcSextet(t, 0) as int], Base64Chars[RfcSextet(t, 1) as int],
                   Base64Chars[RfcSextet(t, 2) as int], Pad]
    ensures Encode(t) == r
  {
    EncodeOneChunk(t);
    ChunkOfTwo(t);
  }

  lemma EncodesOne(t: seq<byte>, r: seq<Char8>)
    requires |t| == 1
    requires r == [Base64Chars[RfcSextet(t, 0) as int], Base64Chars[RfcSextet(t, 1) as int], Pad, Pad]
    ensures Encode(t) == r
  {
    EncodeOneChunk(t);
    ChunkOfOne(t);
  }

  /** The bytes of "light wor": three whole chunks, no padding. */
  lemma EncodesLightWorBytes(t: seq<byte>)
    requires t == [0x6C, 0x69, 0x67, 0x68, 0x74, 0x20, 0x77, 0x6F, 0x72]
    ensures Encode(t) == "bGlnaHQgd29y"
  {
    var a, b, c := t[..3], t[3..6], t[6..];
    assert t == a + b + c;
    EncodesThree(a, "bGln");
    EncodesThree(b, "aHQg");
    EncodesThree(c, "d29y");
    EncodeConcat(a, b);
    EncodeConcat(a + b, c);
  }

  /** The bytes of "light work.": a last chunk of two bytes, one `=`. */
  lemma EncodesLightWorkDotBytes(t: seq<byte>)
    requires t == [0x6C, 0x69, 0x67, 0x68, 0x74, 0x20, 0x77, 0x6F, 0x72, 0x6B, 0x2E]
    ensures Encode(t) == "bGlnaHQgd29yay4="
  {
    var front, last := t[..9], t[9..];
    assert t == front + last;
    EncodesLightWorBytes(front);
    EncodesTwo(last, "ay4=");
    EncodeConcat(front, last);
  }

  /** The bytes of "light work": a last chunk of one byte, two `=`. */
  lemma EncodesLightWorkBytes(t: seq<byte>)
    requires t == [0x6C, 0x69, 0x67, 0x68, 0x74, 0x20, 0x77, 0x6F, 0x72, 0x6B]
    ensures Encode(t) == "bGlnaHQgd29yaw=="
  {
    var front, last := t[..9], t[9..];
    assert t == front + last;
    EncodesLightWorBytes(front);
    EncodesOne(last, "aw==");
    EncodeConcat(front, last);
  }

  /** The three strings themselves. */
  lemma EncodesLightWor(s: string)
    requires s == "light wor"
    ensures Encode(Ascii(s)) == "bGlnaHQgd29y"
  {
    EncodesLightWorBytes(Ascii(s));
  }

  lemma EncodesLightWorkDot(s: string)
    requires s == "light work."
    ensures Encode(Ascii(s)) == "bGlnaHQgd29yay4="
  {
    EncodesLightWorkDotBytes(Ascii(s));
  }

  lemma EncodesLightWork(s: string)
    requires s == "light work"
    ensures Encode(Ascii(s)) == "bGlnaHQgd29yaw=="
  {
    EncodesLightWorkBytes(Ascii(s));
  }
}
