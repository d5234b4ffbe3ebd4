/** The Base64 alphabet of section 4 of RFC 4648 and the decoder's reverse
    lookup table, built by a loop over the alphabet (src/base64.h:32 and
    src/base64.h:98-111). */
module Alphabet {
  import opened Base64Types

  // The alphabet `base64_chars` as the source spells it out.
  const Uppercase: seq<Char8> := ['A', 'B', 'C', 'D', 'E', 'F', 'G', 'H', 'I', 'J', 'K', 'L', 'M', 'N', 'O', 'P', 'Q', 'R', 'S', 'T', 'U', 'V', 'W', 'X', 'Y', 'Z']
  const Lowercase: seq<Char8> := ['a', 'b', 'c', 'd', 'e', 'f', 'g', 'h', 'i', 'j', 'k', 'l', 'm', 'n', 'o', 'p', 'q', 'r', 's', 't', 'u', 'v', 'w', 'x', 'y', 'z']
  const Digits: seq<Char8> := ['0', '1', '2', '3', '4', '5', '6', '7', '8', '9']

  /** The alphabet, position by position; `AlphabetSpelledOut` shows it is
      the string above. */
  const Base64Chars: seq<Char8> := AlphabetByRanges()

  function AlphabetByRanges(): (a: seq<Char8>)
    ensures |a| == 64
  {
    seq(64, i requires 0 <= i < 64 => CodeOf(i))
  }

  /** The symbol at position `i` of the alphabet, by character ranges. */
  function CodeOf(i: nat): Char8
    requires i < 64
  {
    if i < 26 then ('A' as int + i) as char
    else if i < 52 then ('a' as int + i - 26) as char
    else if i < 62 then ('0' as int + i - 52) as char
    else if i == 62 then '+' else '/'
  }

  /** The padding symbol, outside the alphabet. */
  const Pad: Char8 := '='

  /** Flag bits of a lookup-table entry; the low six bits hold the sextet. */
  const IsValid: bv8 := 0x40
  const IsPadding: bv8 := 0x80
  const SextetMask: bv8 := 0x3F

  /** The position of `c` in the alphabet by character ranges, or -1 when
      `c` is not in it. */
  function PositionOf(c: Char8): (v: int)
    ensures -1 <= v < 64
  {
    if 'A' <= c <= 'Z' then c as int - 'A' as int
    else if 'a' <= c <= 'z' then c as int - 'a' as int + 26
    else if '0' <= c <= '9' then c as int - '0' as int + 52
    else if c == '+' then 62
    else if c == '/' then 63
    else -1
  }

  lemma UppercaseAt()
    ensures forall i :: 0 <= i < 26 ==> Uppercase[i] == CodeOf(i)
  {
  }

  lemma LowercaseAt()
    ensures forall i :: 0 <= i < 26 ==> Lowercase[i] == CodeOf(i + 26)
  {
  }

  lemma DigitsAt()
    ensures forall i :: 0 <= i < 10 ==> Digits[i] == CodeOf(i + 52)
  {
  }

  /** The alphabet is the string the source spells out: the upper-case
      letters, the lower-case letters, the digits, `+` and `/`. */
  lemma AlphabetSpelledOut()
    ensures Base64Chars == Uppercase + Lowercase + Digits + ['+', '/']
  {
    var letters := Uppercase + Lowercase;
    var spelled := letters + Digits + ['+', '/'];
    UppercaseAt();
    LowercaseAt();
    DigitsAt();
    forall i | 0 <= i < 64
      ensures Base64Chars[i] == spelled[i]
    {
      if i < 52 {
        assert spelled[i] == letters[i];
        if i >= 26 {
          assert letters[i] == Lowercase[i - 26];
        }
      } else if i < 62 {
        assert spelled[i] == Digits[i - 52];
      }
    }
  }

  /** `PositionOf` inverts the alphabet: each symbol's position is found,
      and a position found holds that symbol. */
  lemma PositionOfAlphabet(i: nat)
    requires i < 64
    ensures PositionOf(Base64Chars[i]) == i
  {
  }

  lemma PositionFound(c: Char8)
    ensures PositionOf(c) >= 0 ==> Base64Chars[PositionOf(c)] == c
    ensures PositionOf(c) >= 0 <==> c in Base64Chars
  {
    if c in Base64Chars {
      var i :| 0 <= i < |Base64Chars| && Base64Chars[i] == c;
      PositionOfAlphabet(i);
    }
  }

  /** No symbol occurs twice in the alphabet, and `=` is not in it. */
  lemma AlphabetDistinct(i: nat, j: nat)
    requires i < 64 && j < 64 && i != j
    ensures Base64Chars[i] != Base64Chars[j]
    ensures Base64Chars[i] != Pad
  {
    PositionOfAlphabet(i);
    PositionOfAlphabet(j);
  }

  /** A symbol of the alphabet or the padding symbol: the entries the table
      marks valid. */
  predicate IsSymbol(c: Char8)
  {
    PositionOf(c) >= 0 || c == Pad
  }

  /** The finished lookup table, entry by entry: an alphabet symbol is
      valid with its position as sextet, `=` is valid padding with sextet 0,
      every other entry is zero. */
  function Lookup(c: Char8): bv8
  {
    var i := PositionOf(c);
    if c == Pad then IsPadding | IsValid
    else if i >= 0 then IsValid | i as bv8
    else 0
  }

  /** The whole table, indexed by unsigned char; `DecodeTableAt` reads
      entry `k` as `Lookup` of the character with code `k`. */
  function DecodeTable(): (t: seq<bv8>)
    ensures |t| == 256
  {
    TableFrom(0)
  }

  /** The entries of the table from code `k` on. */
  function TableFrom(k: nat): (t: seq<bv8>)
    requires k <= 256
    ensures |t| == 256 - k
    decreases 256 - k
  {
    if k == 256 then [] else [Lookup(k as char)] + TableFrom(k + 1)
  }

  lemma {:induction false} TableFromAt(k: nat, j: nat)
    requires k <= j < 256
    ensures TableFrom(k)[j - k] == Lookup(j as char)
    decreases j - k
  {
    if j > k {
      assert TableFrom(k)[j - k] == TableFrom(k + 1)[j - (k + 1)];
      TableFromAt(k + 1, j);
    }
  }

  lemma DecodeTableAt(k: nat)
    requires k < 256
    ensures DecodeTable()[k] == Lookup(k as char)
  {
    TableFromAt(0, k);
  }

  /** Entry `c` of the table after the loop has visited the first `n`
      symbols of the alphabet (later writes win, as in the source). */
  function TableAfter(n: nat, c: Char8): bv8
    requires n <= 64
  {
    if n == 0 then 0
    else if Base64Chars[n - 1] == c then IsValid | (n - 1) as bv8
    else TableAfter(n - 1, c)
  }

  lemma {:induction false} TableAfterSymbol(n: nat, i: nat)
    requires i < n <= 64
    ensures TableAfter(n, Base64Chars[i]) == IsValid | i as bv8
  {
    if n - 1 != i {
      AlphabetDistinct(n - 1, i);
      TableAfterSymbol(n - 1, i);
    }
  }

  lemma {:induction false} TableAfterOther(n: nat, c: Char8)
    requires n <= 64
    requires forall i :: 0 <= i < n ==> Base64Chars[i] != c
    ensures TableAfter(n, c) == 0
  {
    if n > 0 {
      TableAfterOther(n - 1, c);
    }
  }

  /** The loop over the whole alphabet followed by the write for `=` gives
      the table `Lookup` describes. */
  lemma TableComplete(c: Char8)
    ensures c != Pad ==> TableAfter(64, c) == Lookup(c)
  {
    PositionFound(c);
    if c != Pad {
      if PositionOf(c) >= 0 {
        TableAfterSymbol(64, PositionOf(c));
      } else {
        TableAfterOther(64, c);
      }
    }
  }

  /** The table read as the decoder reads it: the valid flag is set exactly
      for the symbols, the padding bit exactly for `=`, and the sextet of an
      alphabet symbol is its position, so the encoder's table gives the
      symbol back. */
  lemma LookupDecodes(c: Char8)
    ensures (Lookup(c) & IsValid != 0) <==> IsSymbol(c)
    ensures IsSymbol(c) ==> ((Lookup(c) >> 7 == 1) <==> c == Pad)
    ensures IsSymbol(c) ==> (Lookup(c) >> 7 == 0) || (Lookup(c) >> 7 == 1)
    ensures c in Base64Chars ==> Base64Chars[(Lookup(c) & SextetMask) as int] == c
    ensures c == Pad ==> Lookup(c) & SextetMask == 0
    ensures PositionOf(c) >= 0 ==> Lookup(c) & SextetMask == PositionOf(c) as bv8
  {
    PositionFound(c);
    var i := PositionOf(c);
    if c == Pad {
      assert Lookup(c) == 0xC0;
    } else if i >= 0 {
      SymbolEntry(i as bv8);
      SmallRoundTrip(i);
    } else {
      assert Lookup(c) == 0;
    }
  }

  /** The entry of the symbol at position `v`: valid, not padding, and
      holding `v` as its sextet. */
  lemma SymbolEntry(v: bv8)
    requires v < 64
    ensures (IsValid | v) & IsValid != 0
    ensures (IsValid | v) & SextetMask == v
    ensures (IsValid | v) >> 7 == 0
  {
  }

  /** The table-building loop of the decoder: one entry per unsigned char,
      each alphabet symbol marked valid with its position, then `=`. */
  method BuildLookup() returns (table: seq<bv8>)
    ensures table == DecodeTable()
  {
    var a := new bv8[256](_ => 0);
    var i := 0;
    while i < |Base64Chars|
      invariant |Base64Chars| == 64 && 0 <= i <= 64
      invariant forall k :: 0 <= k < 256 ==> a[k] == TableAfter(i, k as char)
    {
      a[Base64Chars[i] as int] := IsValid | i as bv8;
      i := i + 1;
    }
    a[Pad as int] := IsPadding | IsValid;
    forall k | 0 <= k < 256
      ensures a[k] == DecodeTable()[k]
    {
      TableComplete(k as char);
      DecodeTableAt(k);
    }
    table := a[..];
  }
}
