/** The decoder `try_decode64` (src/base64.h:79-167) and the size bound
    `decode64_max_size` (src/base64.h:175-185). The decoder reads the input in
    groups of four symbols; a complete, well-formed group writes three bytes
    less one per `=`, and the first malformed group stops decoding with an
    error that reports where in the input it was found. */
module Decode64 {
  import opened Base64Types
  import opened Alphabet
  import opened ByteVectors

  /** `max_size`: an input whose length is not a multiple of four lacks
      symbols; otherwise at most three bytes per four symbols. */
  function MaxSize(inputSize: nat): (r: Result<nat, DecodeError>)
    ensures r.Failure? <==> inputSize % 4 != 0
    ensures r.Failure? ==> r.error == MissingCharacter
    ensures r.Success? ==> r.value == 3 * (inputSize / 4)
  {
    if inputSize % 4 != 0 then Failure(MissingCharacter) else Success(3 * inputSize / 4)
  }

  /** `decode64_max_size`: the bound for a range of known length. */
  function DecodedMaxSize<T>(input: seq<T>): (r: Result<nat, DecodeError>)
    ensures r.Failure? <==> |input| % 4 != 0
    ensures r.Failure? ==> r.error == MissingCharacter
    ensures r.Success? ==> r.value == 3 * (|input| / 4)
  {
    MaxSize(|input|)
  }

  /** The per-group state machine, at symbol `p` of the input with `i`
      symbols of the group read: the word assembled so far and the number of
      `=` seen, or the error and the position of the symbol that caused it.
      The word is a number: four sextets fill 24 bits, which the source's
      `unsigned long` holds without loss. */
  datatype GroupScan = Scanned(word: nat, numPadding: nat) | Rejected(at: nat, error: DecodeError)

  /** The most `=` a group can hold after `i` symbols: none in the first two
      positions. */
  function PaddingBound(i: nat): nat
  {
    if i < 2 then 0 else i - 2
  }

  /** The inner loop of `try_decode` (src/base64.h:116-136), from symbol `p`
      with `i` symbols of the group read. Shifting the word left by six bits
      and or-ing in a sextet below 64 is `word * 64 + sextet`. */
  function ScanGroup(table: seq<bv8>, s: seq<Char8>, p: nat, i: nat, word: nat, numPadding: nat): GroupScan
    requires |table| == 256 && p <= |s| && i <= 4 && numPadding <= PaddingBound(i)
    decreases 4 - i
  {
    if i == 4 then Scanned(word, numPadding)
    else if p == |s| then Rejected(p, MissingCharacter)
    else
      var sextet := table[s[p] as int];
      if sextet & IsValid == 0 then Rejected(p, IllegalCharacter)
      else
        // the entry's top bit, 0 or 1, as a count
        var sextetIsPadding: nat := if sextet >> 7 == 0 then 0 else 1;
        if (i < 2 && sextetIsPadding != 0) || (numPadding != 0 && sextetIsPadding == 0) then
          Rejected(p, IllegalPadding)
        else
          ScanGroup(table, s, p + 1, i + 1, word * 64 + (sextet & SextetMask) as int, numPadding + sextetIsPadding)
  }

  /** The step of `ScanGroup` that shifts a symbol in, for an entry that
      is valid and whose padding bit is allowed at position `i`. */
  lemma ScanShift(t: seq<bv8>, s: seq<Char8>, p: nat, i: nat, word: nat, np: nat, e: bv8, isPad: nat)
    requires |t| == 256 && i < 4 && p < |s| && np <= PaddingBound(i)
    requires e == t[s[p] as int] && e & IsValid != 0 && isPad == (if e >> 7 == 0 then 0 else 1)
    requires !((i < 2 && isPad != 0) || (np != 0 && isPad == 0))
    ensures ScanGroup(t, s, p, i, word, np) == ScanGroup(t, s, p + 1, i + 1, word * 64 + (e & SextetMask) as int, np + isPad)
  {
  }

  /** The state machine accepts only a group whose four symbols are all
      there, with at most two `=`, and rejects at a symbol of the group or
      at the end of the input, never for want of canonical form. */
  lemma {:induction false} ScanBounds(table: seq<bv8>, s: seq<Char8>, p: nat, i: nat, word: nat, np: nat)
    requires |table| == 256 && p <= |s| && i <= 4 && np <= PaddingBound(i)
    ensures var g := ScanGroup(table, s, p, i, word, np);
            && (g.Scanned? ==> p + 4 - i <= |s| && g.numPadding <= 2)
            && (g.Rejected? ==> p <= g.at <= |s| && g.at < p + 4 - i && g.error != NonCanonical)
    decreases 4 - i
  {
    if i < 4 && p < |s| {
      var e := table[s[p] as int];
      var isPad: nat := if e >> 7 == 0 then 0 else 1;
      if e & IsValid != 0 && !((i < 2 && isPad != 0) || (np != 0 && isPad == 0)) {
        ScanShift(table, s, p, i, word, np, e, isPad);
        ScanBounds(table, s, p + 1, i + 1, word * 64 + (e & SextetMask) as int, np + isPad);
      }
    }
  }

  /** The canonical-encoding rule (section 3.5 of RFC 4648): the bits of the
      word that no output byte carries must be zero, bits 6 and 7 (mask
      `0xC0`) after one `=`, bits 12 to 15 (mask `0xF000`) after two. */
  predicate NonCanonicalWord(word: nat, numPadding: nat)
  {
    (numPadding == 1 && (word / 0x40) % 4 != 0) || (numPadding == 2 && (word / 0x1000) % 16 != 0)
  }

  /** Byte `k` of the 24-bit word, most significant first: the word
      shifted right by `(2 - k) * 8` bits, truncated to a byte. */
  function WordByte(word: nat, k: nat): byte
    requires k < 3
  {
    var shift: nat := if k == 0 then 0x1_0000 else if k == 1 then 0x100 else 1;
    ((word / shift) % 256) as byte
  }

  /** The bytes a group writes: `3 - numPadding` of them, most significant
      first (src/base64.h:149-151). */
  function GroupBytes(word: nat, numPadding: nat): (bs: seq<byte>)
    requires numPadding <= 2
    ensures |bs| == 3 - numPadding
  {
    seq(3 - numPadding, k requires 0 <= k < 3 - numPadding => WordByte(word, k))
  }

  /** What one group does: the bytes it writes, or its error and position. */
  datatype GroupResult = GroupOk(bytes: seq<byte>) | GroupErr(at: nat, error: DecodeError)

  /** One pass of the outer loop of `try_decode` (src/base64.h:113-152) for
      the group starting at symbol `p`. */
  function DecodeGroup(table: seq<bv8>, s: seq<Char8>, p: nat): (g: GroupResult)
    requires |table| == 256 && p < |s|
    ensures g.GroupOk? ==> p + 4 <= |s| && |g.bytes| <= 3
    ensures g.GroupErr? ==> p <= g.at <= |s| && (if g.error == NonCanonical then g.at == p + 4 else g.at < p + 4)
  {
    ScanBounds(table, s, p, 0, 0, 0);
    match ScanGroup(table, s, p, 0, 0, 0)
    case Rejected(q, e) => GroupErr(q, e)
    case Scanned(w, np) =>
      if NonCanonicalWord(w, np) then GroupErr(p + 4, NonCanonical) else GroupOk(GroupBytes(w, np))
  }

  /** The outcome of decoding: the input position reached and the bytes
      written, with the error if decoding stopped on one. */
  datatype Decoded =
    | Done(inPos: nat, bytes: seq<byte>)
    | Failed(inPos: nat, bytes: seq<byte>, error: DecodeError)

  /** `bs` written before everything in `d`. */
  function Prepend(bs: seq<byte>, d: Decoded): (r: Decoded)
    ensures r.bytes == bs + d.bytes && r.inPos == d.inPos && r.Done? == d.Done?
    ensures r.Failed? ==> r.error == d.error
  {
    match d
    case Done(q, b) => Done(q, bs + b)
    case Failed(q, b, e) => Failed(q, bs + b, e)
  }

  /** Decoding from symbol `p` on, group by group: nothing left, or one
      group and, if it is valid, the rest. */
  function DecodeFrom(table: seq<bv8>, s: seq<Char8>, p: nat): (d: Decoded)
    requires |table| == 256 && p <= |s|
    ensures p <= d.inPos <= |s|
    decreases |s| - p, 1
  {
    if p == |s| then Done(p, []) else DecodeGroupThen(table, s, p)
  }

  function DecodeGroupThen(table: seq<bv8>, s: seq<Char8>, p: nat): (d: Decoded)
    requires |table| == 256 && p < |s|
    ensures p <= d.inPos <= |s|
    decreases |s| - p, 0
  {
    match DecodeGroup(table, s, p)
    case GroupErr(q, e) => Failed(q, [], e)
    case GroupOk(bs) => Prepend(bs, DecodeFrom(table, s, p + 4))
  }

  /** `try_decode64` over a whole input. */
  function Decode(s: seq<Char8>): Decoded
  {
    DecodeFrom(DecodeTable(), s, 0)
  }

  /** The symbols the decoder sees: `proj` applied to each element. */
  function Project<T>(input: seq<T>, proj: T -> Char8): (s: seq<Char8>)
    ensures |s| == |input|
    ensures forall k :: 0 <= k < |input| ==> s[k] == proj(input[k])
  {
    seq(|input|, k requires 0 <= k < |input| => proj(input[k]))
  }

  /** What `try_decode64` returns: the input position and the output
      iterator, and on failure the error. */
  datatype TryDecodeResult =
    | Ok(inPos: nat, out: OutIter)
    | Err(inPos: nat, out: OutIter, error: DecodeError)

  /** The result that reports decoding outcome `d` through an output that
      started at `result`. */
  function Reported(d: Decoded, result: OutIter): TryDecodeResult
  {
    match d
    case Done(q, bs) => Ok(q, Advance(result, |bs|))
    case Failed(q, bs, e) => Err(q, Advance(result, |bs|), e)
  }

  lemma PrependPrepend(a: seq<byte>, b: seq<byte>, d: Decoded)
    ensures Prepend(a, Prepend(b, d)) == Prepend(a + b, d)
  {
    assert a + (b + d.bytes) == (a + b) + d.bytes;
  }

  /** A group that the state machine rejects stops decoding there. */
  lemma GroupFails(table: seq<bv8>, s: seq<Char8>, start: nat, q: nat, e: DecodeError)
    requires |table| == 256 && start < |s| && ScanGroup(table, s, start, 0, 0, 0) == Rejected(q, e)
    ensures DecodeFrom(table, s, start) == Failed(q, [], e)
  {
    assert DecodeFrom(table, s, start) == DecodeGroupThen(table, s, start);
  }

  /** A group that the state machine accepts but that is not canonical
      stops decoding, reported after the group. */
  lemma GroupNonCanonical(table: seq<bv8>, s: seq<Char8>, p: nat, word: nat, numPadding: nat)
    requires |table| == 256 && p < |s| && ScanGroup(table, s, p, 0, 0, 0) == Scanned(word, numPadding)
    requires NonCanonicalWord(word, numPadding)
    ensures DecodeFrom(table, s, p) == Failed(p + 4, [], NonCanonical)
  {
    assert DecodeFrom(table, s, p) == DecodeGroupThen(table, s, p);
  }

  /** A group that the state machine accepts and that is canonical writes
      its bytes, and decoding goes on after it. */
  lemma GroupAccepted(table: seq<bv8>, s: seq<Char8>, p: nat, word: nat, numPadding: nat)
    requires |table| == 256 && p < |s| && ScanGroup(table, s, p, 0, 0, 0) == Scanned(word, numPadding)
    requires !NonCanonicalWord(word, numPadding)
    ensures p + 4 <= |s|
    ensures DecodeFrom(table, s, p) == Prepend(GroupBytes(word, numPadding), DecodeFrom(table, s, p + 4))
  {
    assert DecodeFrom(table, s, p) == DecodeGroupThen(table, s, p);
  }

  /** The outer loop's invariant: the bytes `written` so far, followed by
      what decoding from `first` on writes, are the decoded bytes, and they
      have been stored through the output iterator, which is now `out`. */
  ghost predicate Progress(table: seq<bv8>, s: seq<Char8>, whole: Decoded, first: nat, written: seq<byte>,
                           elems0: seq<byte>, result: OutIter, out: OutIter, elems: seq<byte>)
  {
    && |table| == 256 && first <= |s|
    && whole == Prepend(written, DecodeFrom(table, s, first))
    && HasRoom(elems0, result, |written|)
    && out == Advance(result, |written|)
    && elems == Store(elems0, result, written)
  }

  /** One accepted group keeps the outer loop's invariant, and the output
      has room for its bytes. */
  lemma ProgressGroup(table: seq<bv8>, s: seq<Char8>, whole: Decoded, first: nat, word: nat, numPadding: nat,
                      written: seq<byte>, elems0: seq<byte>, result: OutIter, out: OutIter, elems: seq<byte>)
    requires Progress(table, s, whole, first, written, elems0, result, out, elems)
    requires HasRoom(elems0, result, |whole.bytes|)
    requires |table| == 256 && first < |s| && ScanGroup(table, s, first, 0, 0, 0) == Scanned(word, numPadding)
    requires !NonCanonicalWord(word, numPadding)
    ensures first + 4 <= |s| && numPadding <= 2 && HasRoom(elems, out, 3 - numPadding)
    ensures Progress(table, s, whole, first + 4, written + GroupBytes(word, numPadding), elems0, result,
                     Advance(out, 3 - numPadding), Store(elems, out, GroupBytes(word, numPadding)))
  {
    var group := GroupBytes(word, numPadding);
    var rest := DecodeFrom(table, s, first + 4);
    GroupAccepted(table, s, first, word, numPadding);
    PrependPrepend(written, group, rest);
    assert |whole.bytes| == |written| + |group| + |rest.bytes|;
    StoreMore(elems0, result, written, group);
  }

  /** When decoding from `first` on writes nothing more, what is stored is
      all the decoded bytes and the loop reports the outcome. */
  lemma ProgressStops(table: seq<bv8>, s: seq<Char8>, whole: Decoded, first: nat, d: Decoded,
                      written: seq<byte>, elems0: seq<byte>, result: OutIter, out: OutIter, elems: seq<byte>)
    requires Progress(table, s, whole, first, written, elems0, result, out, elems)
    requires DecodeFrom(table, s, first) == d && d.bytes == []
    ensures elems == Store(elems0, result, whole.bytes)
    ensures Reported(whole, result)
            == if d.Done? then Ok(d.inPos, out) else Err(d.inPos, out, d.error)
  {
    assert written + [] == written;
  }

  /** A group the state machine rejects ends the outer loop with its
      error, everything decoded before it stored. */
  lemma ProgressRejected(table: seq<bv8>, s: seq<Char8>, whole: Decoded, first: nat, q: nat, e: DecodeError,
                         written: seq<byte>, elems0: seq<byte>, result: OutIter, out: OutIter, elems: seq<byte>)
    requires Progress(table, s, whole, first, written, elems0, result, out, elems)
    requires HasRoom(elems0, result, |whole.bytes|)
    requires |table| == 256 && first < |s| && ScanGroup(table, s, first, 0, 0, 0) == Rejected(q, e)
    ensures elems == Store(elems0, result, whole.bytes) && Reported(whole, result) == Err(q, out, e)
  {
    GroupFails(table, s, first, q, e);
    ProgressStops(table, s, whole, first, Failed(q, [], e), written, elems0, result, out, elems);
  }

  /** A group that is not canonical ends the outer loop after the group. */
  lemma ProgressNonCanonical(table: seq<bv8>, s: seq<Char8>, whole: Decoded, first: nat, word: nat, numPadding: nat,
                             written: seq<byte>, elems0: seq<byte>, result: OutIter, out: OutIter, elems: seq<byte>)
    requires Progress(table, s, whole, first, written, elems0, result, out, elems)
    requires HasRoom(elems0, result, |whole.bytes|)
    requires |table| == 256 && first < |s| && ScanGroup(table, s, first, 0, 0, 0) == Scanned(word, numPadding)
    requires NonCanonicalWord(word, numPadding)
    ensures elems == Store(elems0, result, whole.bytes)
    ensures Reported(whole, result) == Err(first + 4, out, NonCanonical)
  {
    GroupNonCanonical(table, s, first, word, numPadding);
    ProgressStops(table, s, whole, first, Failed(first + 4, [], NonCanonical), written, elems0, result, out, elems);
  }

  /** The inner loop of `try_decode` (src/base64.h:116-136) over the group
      starting at `start`: reads up to four symbols through the lookup table,
      accumulating the word and counting `=`, and stops at the first symbol
      that is not valid or is padding in the wrong place. */
  method ReadGroup<T>(input: seq<T>, proj: T -> Char8, lookup: seq<bv8>, start: nat)
    returns (g: GroupScan)
    requires start < |input| && |lookup| == 256
    ensures g == ScanGroup(lookup, Project(input, proj), start, 0, 0, 0)
  {
    ghost var s := Project(input, proj);
    ghost var table := lookup;
    var word: nat := 0;
    var numPadding: nat := 0;
    var i := 0;
    var first := start;
    while i < 4 && first < |input|
      invariant first == start + i && i <= 4 && first <= |input|
      invariant numPadding <= PaddingBound(i)
      invariant ScanGroup(table, s, start, 0, 0, 0) == ScanGroup(table, s, first, i, word, numPadding)
    {
      var c := proj(input[first]);
      assert c == s[first];
      var sextet := lookup[c as int];
      if sextet & IsValid == 0 {
        return Rejected(first, IllegalCharacter);
      }
      var sextetIsPadding: nat := if sextet >> 7 == 0 then 0 else 1;
      if (i < 2 && sextetIsPadding != 0) || (numPadding != 0 && sextetIsPadding == 0) {
        return Rejected(first, IllegalPadding);
      }
      ScanShift(table, s, first, i, word, numPadding, sextet, sextetIsPadding);
      numPadding := numPadding + sextetIsPadding;
      word := word * 64 + (sextet & SextetMask) as int;
      i := i + 1;
      first := first + 1;
    }
    if i != 4 {
      return Rejected(first, MissingCharacter);
    }
    g := Scanned(word, numPadding);
  }

  /** The writing loop of `try_decode` (src/base64.h:149-151): the bytes of
      a valid group, most significant first, each through `*result++`. */
  method WriteGroup(v: ByteVector, out: OutIter, word: nat, numPadding: nat) returns (next: OutIter)
    requires numPadding <= 2 && HasRoom(v.elems, out, 3 - numPadding)
    modifies v
    ensures v.elems == Store(old(v.elems), out, GroupBytes(word, numPadding))
    ensures next == Advance(out, 3 - numPadding)
  {
    ghost var elems0 := v.elems;
    ghost var group := GroupBytes(word, numPadding);
    ghost var written: seq<byte> := [];
    next := out;
    var i := 0;
    while i < 3 - numPadding
      invariant 0 <= i <= 3 - numPadding
      invariant written == group[..i]
      invariant next == Advance(out, i)
      invariant v.elems == Store(elems0, out, written)
    {
      var b := WordByte(word, i);
      assert group[..i + 1] == group[..i] + [b];
      StoreMore(elems0, out, written, [b]);
      next := Put(v, next, b);
      written := written + [b];
      i := i + 1;
    }
    assert group[..i] == group;
  }

  /** `try_decode`: decodes `input`, seen through `proj`, writing through
      `result` into `v`, group after group, until the input ends or a group
      fails. The output must have room for what is written. The model
      builds the lookup table on each call, where the source builds its
      static table once; `BuildLookup` gives the same table every time. */
  method TryDecode<T>(input: seq<T>, proj: T -> Char8, v: ByteVector, result: OutIter)
    returns (r: TryDecodeResult)
    requires HasRoom(v.elems, result, |Decode(Project(input, proj)).bytes|)
    modifies v
    ensures v.elems == Store(old(v.elems), result, Decode(Project(input, proj)).bytes)
    ensures r == Reported(Decode(Project(input, proj)), result)
  {
    var lookup := BuildLookup();
    r := DecodeGroups(input, proj, lookup, v, result);
  }

  /** The outer loop of `try_decode` (src/base64.h:113-152), reading the
      symbols through the table `lookup`. */
  method DecodeGroups<T>(input: seq<T>, proj: T -> Char8, lookup: seq<bv8>, v: ByteVector, result: OutIter)
    returns (r: TryDecodeResult)
    requires |lookup| == 256
    requires HasRoom(v.elems, result, |DecodeFrom(lookup, Project(input, proj), 0).bytes|)
    modifies v
    ensures v.elems == Store(old(v.elems), result, DecodeFrom(lookup, Project(input, proj), 0).bytes)
    ensures r == Reported(DecodeFrom(lookup, Project(input, proj), 0), result)
  {
    ghost var s := Project(input, proj);
    ghost var table := lookup;
    ghost var elems0 := v.elems;
    var first := 0;
    var out := result;
    ghost var written: seq<byte> := [];
    ghost var whole := DecodeFrom(table, s, 0);
    assert Prepend([], whole) == whole by { assert [] + whole.bytes == whole.bytes; }
    while first < |input|
      invariant Progress(table, s, whole, first, written, elems0, result, out, v.elems)
      decreases |input| - first
    {
      var g := ReadGroup(input, proj, lookup, first);
      if g.Rejected? {
        ProgressRejected(table, s, whole, first, g.at, g.error, written, elems0, result, out, v.elems);
        return Err(g.at, out, g.error);
      }
      var word, numPadding := g.word, g.numPadding;
      if NonCanonicalWord(word, numPadding) {
        ProgressNonCanonical(table, s, whole, first, word, numPadding, written, elems0, result, out, v.elems);
        return Err(first + 4, out, NonCanonical);
      }
      ProgressGroup(table, s, whole, first, word, numPadding, written, elems0, result, out, v.elems);
      out := WriteGroup(v, out, word, numPadding);
      written := written + GroupBytes(word, numPadding);
      first := first + 4;
    }
    ProgressStops(table, s, whole, first, Done(first, []), written, elems0, result, out, v.elems);
    r := Ok(first, out);
  }
}
