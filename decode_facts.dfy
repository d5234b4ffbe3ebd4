/** What the decoder accepts and rejects, stated symbol by symbol in the
    terms of section 4 of RFC 4648 and proved of `Decode64.Decode`: how a
    group is classified, what a successful decode writes, and what stays
    written when decoding fails. */
module DecodeFacts {
  import opened Base64Types
  import opened Alphabet
  import opened Decode64

  /** The fault of the symbol at `q` in the group starting at `b`, if any:
      a character outside the alphabet that is not `=`, `=` in the first
      two positions of a group, or an alphabet symbol after an `=` of the
      same group. */
  function Fault(s: seq<Char8>, b: nat, q: nat): Option<DecodeError>
    requires b <= q < |s|
  {
    if !IsSymbol(s[q]) then Some(IllegalCharacter)
    else if s[q] == Pad && q < b + 2 then Some(IllegalPadding)
    else if s[q] != Pad && exists r :: b <= r < q && s[r] == Pad then Some(IllegalPadding)
    else None
  }

  /** No symbol before `q` in the group starting at `b` has a fault. */
  ghost predicate Clean(s: seq<Char8>, b: nat, q: nat)
    requires b <= q <= |s|
  {
    forall r :: b <= r < q ==> Fault(s, b, r).None?
  }

  /** The six bits a symbol stands for: its position in the alphabet, and
      zero for `=`. */
  function SextetOf(c: Char8): (v: nat)
    ensures v < 64
  {
    if c == Pad then 0 else if PositionOf(c) >= 0 then PositionOf(c) else 0
  }

  /** Four sextets side by side, the first most significant. */
  function GroupWord(a: nat, b: nat, c: nat, d: nat): nat
  {
    a * 0x4_0000 + b * 0x1000 + c * 0x40 + d
  }

  /** The `=` of a clean group so far are its last `np` symbols. */
  ghost predicate PadsAtEnd(s: seq<Char8>, b: nat, q: nat, np: nat)
    requires b <= q <= |s|
  {
    np <= q - b && forall r :: b <= r < q ==> (s[r] == Pad <==> r >= q - np)
  }

  /** The word after one more symbol `c` is shifted in. */
  function NextWord(word: nat, c: Char8): nat
  {
    word * 64 + SextetOf(c)
  }

  /** The count of `=` after one more symbol `c`. */
  function NextPad(np: nat, c: Char8): nat
  {
    np + if c == Pad then 1 else 0
  }

  /** The group state machine stated on symbols rather than on table
      entries: what a symbol is, not how the table encodes it, decides each
      step. */
  function SymbolScan(s: seq<Char8>, p: nat, i: nat, word: nat, np: nat): GroupScan
    requires p <= |s| && i <= 4
    decreases 4 - i
  {
    if i == 4 then Scanned(word, np)
    else if p == |s| then Rejected(p, MissingCharacter)
    else
      var c := s[p];
      if !IsSymbol(c) then Rejected(p, IllegalCharacter)
      else if (i < 2 && c == Pad) || (np != 0 && c != Pad) then Rejected(p, IllegalPadding)
      else SymbolScan(s, p + 1, i + 1, NextWord(word, c), NextPad(np, c))
  }

  /** What a table entry `e` says of symbol `c`: valid exactly for the
      alphabet and `=`, with the padding bit set exactly for `=`, and the
      symbol's sextet in its low six bits. */
  predicate EntryFacts(e: bv8, c: Char8)
  {
    && (e & IsValid != 0 <==> IsSymbol(c))
    && (IsSymbol(c) ==> (e >> 7 == 0 <==> c != Pad) && (e & SextetMask) as int == SextetOf(c))
  }

  /** A table that holds for every character what its entry says. */
  ghost predicate DecodesSymbols(t: seq<bv8>)
  {
    |t| == 256 && forall k | 0 <= k < 256 :: EntryFacts(t[k], k as char)
  }

  /** The decoding table of `try_decode` classifies every character. */
  lemma TableDecodesSymbols()
    ensures DecodesSymbols(DecodeTable())
  {
    forall k | 0 <= k < 256
      ensures EntryFacts(DecodeTable()[k], k as char)
    {
      var c := k as char;
      DecodeTableAt(k);
      LookupDecodes(c);
      if IsSymbol(c) && c != Pad {
        SmallRoundTrip(PositionOf(c));
      }
    }
  }

  /** Read through a table that classifies every character, the state
      machine of `try_decode` takes the same steps as the one on symbols. */
  lemma {:induction false} TableScan(t: seq<bv8>, s: seq<Char8>, p: nat, i: nat, word: nat, np: nat)
    requires DecodesSymbols(t)
    requires p <= |s| && i <= 4 && np <= PaddingBound(i)
    ensures ScanGroup(t, s, p, i, word, np) == SymbolScan(s, p, i, word, np)
    decreases 4 - i
  {
    if i < 4 && p < |s| {
      var c := s[p];
      assert EntryFacts(t[c as int], c) by { assert (c as int) as char == c; }
      if IsSymbol(c) && !((i < 2 && c == Pad) || (np != 0 && c != Pad)) {
        StepShifts(t, s, p, i, word, np);
        TableScan(t, s, p + 1, i + 1, NextWord(word, c), NextPad(np, c));
      } else {
        StepRejects(t, s, p, i, word, np);
      }
    }
  }

  lemma StepRejects(t: seq<bv8>, s: seq<Char8>, p: nat, i: nat, word: nat, np: nat)
    requires |t| == 256 && p < |s| && i < 4 && np <= PaddingBound(i)
    requires EntryFacts(t[s[p] as int], s[p])
    requires !IsSymbol(s[p]) || (i < 2 && s[p] == Pad) || (np != 0 && s[p] != Pad)
    ensures ScanGroup(t, s, p, i, word, np) == SymbolScan(s, p, i, word, np)
  {
  }

  lemma StepShifts(t: seq<bv8>, s: seq<Char8>, p: nat, i: nat, word: nat, np: nat)
    requires |t| == 256 && p < |s| && i < 4 && np <= PaddingBound(i)
    requires EntryFacts(t[s[p] as int], s[p])
    requires IsSymbol(s[p]) && !((i < 2 && s[p] == Pad) || (np != 0 && s[p] != Pad))
    ensures NextPad(np, s[p]) <= PaddingBound(i + 1)
    ensures ScanGroup(t, s, p, i, word, np) == ScanGroup(t, s, p + 1, i + 1, NextWord(word, s[p]), NextPad(np, s[p]))
    ensures SymbolScan(s, p, i, word, np) == SymbolScan(s, p + 1, i + 1, NextWord(word, s[p]), NextPad(np, s[p]))
  {
    var e := t[s[p] as int];
    var isPad: nat := if e >> 7 == 0 then 0 else 1;
    assert isPad == NextPad(np, s[p]) - np;
    assert word * 64 + (e & SextetMask) as int == NextWord(word, s[p]);
    ScanShift(t, s, p, i, word, np, e, isPad);
  }

  /** The symbol machine from the `i`-th symbol of the group at `b` on,
      when the symbols before are clean: it accepts exactly when the group
      is complete and clean, and otherwise rejects at the first fault, or
      at the end of the input if the group is cut short. */
  lemma {:induction false} ScanFrom(s: seq<Char8>, b: nat, p: nat, i: nat, word: nat, np: nat)
    requires i <= 4 && p == b + i && p <= |s| && np <= PaddingBound(i)
    requires Clean(s, b, p) && PadsAtEnd(s, b, p, np)
    ensures var g := SymbolScan(s, p, i, word, np);
            && (g.Scanned? ==> && b + 4 <= |s| && g.numPadding <= 2
                               && Clean(s, b, b + 4) && PadsAtEnd(s, b, b + 4, g.numPadding))
            && (g.Rejected? ==> && p <= g.at < b + 4 && g.at <= |s| && Clean(s, b, g.at)
                                && (if g.at == |s| then g.error == MissingCharacter
                                    else Fault(s, b, g.at) == Some(g.error)))
    decreases 4 - i
  {
    if i == 4 {
      assert b + 4 == p;
    } else if p < |s| {
      var c := s[p];
      FaultStep(s, b, p, np);
      if IsSymbol(c) && !((i < 2 && c == Pad) || (np != 0 && c != Pad)) {
        ScanFrom(s, b, p + 1, i + 1, NextWord(word, c), NextPad(np, c));
      }
    }
  }

  /** While a group is clean, the fault of its next symbol is the one the
      state machine finds, and a symbol without fault keeps it clean. */
  lemma FaultStep(s: seq<Char8>, b: nat, p: nat, np: nat)
    requires b <= p < |s| && Clean(s, b, p) && PadsAtEnd(s, b, p, np)
    ensures var c := s[p];
            Fault(s, b, p) == if !IsSymbol(c) then Some(IllegalCharacter)
                              else if (p < b + 2 && c == Pad) || (np != 0 && c != Pad) then Some(IllegalPadding)
                              else None
    ensures Fault(s, b, p).None? ==> Clean(s, b, p + 1) && PadsAtEnd(s, b, p + 1, NextPad(np, s[p]))
  {
    if np > 0 {
      assert s[p - 1] == Pad;
    } else {
      assert forall r :: b <= r < p ==> s[r] != Pad;
    }
  }

  /** How the symbol machine classifies the group starting at `b`: it
      accepts exactly the complete groups with no fault, whose `=` (at most
      two) come last; it rejects any other group at its first fault, or at
      the end of the input when the group is cut short. */
  lemma GroupClassified(s: seq<Char8>, b: nat)
    requires b < |s|
    ensures var g := SymbolScan(s, b, 0, 0, 0);
            && (g.Scanned? <==> b + 4 <= |s| && Clean(s, b, b + 4))
            && (g.Scanned? ==> g.numPadding <= 2 && PadsAtEnd(s, b, b + 4, g.numPadding))
            && (g.Rejected? ==> && b <= g.at < b + 4 && g.at <= |s| && Clean(s, b, g.at)
                                && (if g.at == |s| then g.error == MissingCharacter
                                    else Fault(s, b, g.at) == Some(g.error)))
  {
    ScanFrom(s, b, b, 0, 0, 0);
  }

  /** The word of a group the symbol machine accepts is its four sextets
      side by side. */
  lemma SymbolWord(s: seq<Char8>, b: nat)
    requires b < |s| && SymbolScan(s, b, 0, 0, 0).Scanned?
    ensures b + 4 <= |s|
    ensures SymbolScan(s, b, 0, 0, 0).word
         == GroupWord(SextetOf(s[b]), SextetOf(s[b + 1]), SextetOf(s[b + 2]), SextetOf(s[b + 3]))
  {
    var w1, n1 := NextWord(0, s[b]), NextPad(0, s[b]);
    assert SymbolScan(s, b, 0, 0, 0) == SymbolScan(s, b + 1, 1, w1, n1);
    var w2, n2 := NextWord(w1, s[b + 1]), NextPad(n1, s[b + 1]);
    assert SymbolScan(s, b + 1, 1, w1, n1) == SymbolScan(s, b + 2, 2, w2, n2);
    var w3, n3 := NextWord(w2, s[b + 2]), NextPad(n2, s[b + 2]);
    assert SymbolScan(s, b + 2, 2, w2, n2) == SymbolScan(s, b + 3, 3, w3, n3);
    var w4, n4 := NextWord(w3, s[b + 3]), NextPad(n3, s[b + 3]);
    assert SymbolScan(s, b + 3, 3, w3, n3) == Scanned(w4, n4);
  }

  /** The number of `=` in a run of symbols. */
  function PadCount(g: seq<Char8>): nat
  {
    multiset(g)[Pad]
  }

  lemma PadsCounted(s: seq<Char8>, b: nat, np: nat)
    requires b + 4 <= |s| && np <= 2 && PadsAtEnd(s, b, b + 4, np)
    ensures PadCount(s[b..b + 4]) == np
  {
    var g := s[b..b + 4];
    assert g == [s[b]] + [s[b + 1]] + [s[b + 2]] + [s[b + 3]];
    assert multiset(g) == multiset([s[b]]) + multiset([s[b + 1]]) + multiset([s[b + 2]]) + multiset([s[b + 3]]);
    assert s[b] != Pad && s[b + 1] != Pad;
    if np == 0 {
      assert s[b + 2] != Pad && s[b + 3] != Pad;
    } else if np == 1 {
      assert s[b + 2] != Pad && s[b + 3] == Pad;
    } else {
      assert s[b + 2] == Pad && s[b + 3] == Pad;
    }
  }

  /** A group the decoder accepts: complete, without fault, and canonical
      (section 3.5 of RFC 4648): the bits that the `=` stand in for are
      zero. */
  ghost predicate ValidGroup(s: seq<Char8>, b: nat)
  {
    && b + 4 <= |s| && Clean(s, b, b + 4)
    && !NonCanonicalWord(GroupWord(SextetOf(s[b]), SextetOf(s[b + 1]), SextetOf(s[b + 2]), SextetOf(s[b + 3])),
                         PadCount(s[b..b + 4]))
  }

  /** One group decoded by the symbol machine. */
  function SymbolGroup(s: seq<Char8>, b: nat): GroupResult
    requires b < |s|
  {
    match SymbolScan(s, b, 0, 0, 0)
    case Rejected(q, e) => GroupErr(q, e)
    case Scanned(w, np) =>
      if np > 2 then GroupErr(b, IllegalPadding)
      else if NonCanonicalWord(w, np) then GroupErr(b + 4, NonCanonical) else GroupOk(GroupBytes(w, np))
  }

  /** Through the decoding table, a group decodes as on symbols. */
  lemma TableGroup(s: seq<Char8>, b: nat)
    requires b < |s|
    ensures DecodeGroup(DecodeTable(), s, b) == SymbolGroup(s, b)
  {
    TableDecodesSymbols();
    TableScan(DecodeTable(), s, b, 0, 0, 0);
    ScanFrom(s, b, b, 0, 0, 0);
  }

  /** A group decodes exactly when it is valid, and then gives `3 - n`
      bytes for its `n` padding symbols, taken from its word most
      significant first; a group that is complete and clean but not
      canonical is reported after it; any other group is reported at its
      first fault, or at the end of an input that cuts it short. */
  lemma GroupValid(s: seq<Char8>, b: nat)
    requires b < |s|
    ensures var g := DecodeGroup(DecodeTable(), s, b);
            && (g.GroupOk? <==> ValidGroup(s, b))
            && (g.GroupOk? ==> PadCount(s[b..b + 4]) <= 2 && g.bytes == GroupBytes(
                  GroupWord(SextetOf(s[b]), SextetOf(s[b + 1]), SextetOf(s[b + 2]), SextetOf(s[b + 3])),
                  PadCount(s[b..b + 4])))
            && (g.GroupErr? && g.error == NonCanonical <==> b + 4 <= |s| && Clean(s, b, b + 4) && !ValidGroup(s, b))
            && (g.GroupErr? && g.error == NonCanonical ==> g.at == b + 4)
            && (g.GroupErr? && g.error != NonCanonical ==>
                  && b <= g.at < b + 4 && g.at <= |s| && Clean(s, b, g.at)
                  && (if g.at == |s| then g.error == MissingCharacter else Fault(s, b, g.at) == Some(g.error)))
  {
    TableGroup(s, b);
    SymbolGroupValid(s, b);
  }

  lemma SymbolGroupValid(s: seq<Char8>, b: nat)
    requires b < |s|
    ensures var g := SymbolGroup(s, b);
            && (g.GroupOk? <==> ValidGroup(s, b))
            && (g.GroupOk? ==> PadCount(s[b..b + 4]) <= 2 && g.bytes == GroupBytes(
                  GroupWord(SextetOf(s[b]), SextetOf(s[b + 1]), SextetOf(s[b + 2]), SextetOf(s[b + 3])),
                  PadCount(s[b..b + 4])))
            && (g.GroupErr? && g.error == NonCanonical <==> b + 4 <= |s| && Clean(s, b, b + 4) && !ValidGroup(s, b))
            && (g.GroupErr? && g.error == NonCanonical ==> g.at == b + 4)
            && (g.GroupErr? && g.error != NonCanonical ==>
                  && b <= g.at < b + 4 && g.at <= |s| && Clean(s, b, g.at)
                  && (if g.at == |s| then g.error == MissingCharacter else Fault(s, b, g.at) == Some(g.error)))
  {
    var scan := SymbolScan(s, b, 0, 0, 0);
    GroupClassified(s, b);
    if scan.Scanned? {
      SymbolWord(s, b);
      PadsCounted(s, b, scan.numPadding);
    }
  }

  /** The input from `p` on is whole groups, and every one of them
      decodes. */
  ghost predicate GroupsDecode(t: seq<bv8>, s: seq<Char8>, p: nat)
    requires |t| == 256 && p <= |s|
  {
    (|s| - p) % 4 == 0 && forall j | 0 <= j && p + 4 * j < |s| :: DecodeGroup(t, s, p + 4 * j).GroupOk?
  }

  lemma GroupsShift(t: seq<bv8>, s: seq<Char8>, p: nat)
    requires |t| == 256 && p + 4 <= |s|
    ensures GroupsDecode(t, s, p) <==> DecodeGroup(t, s, p).GroupOk? && GroupsDecode(t, s, p + 4)
  {
    GroupArith(|s| - p);
    assert p + 4 * 0 == p;
    if GroupsDecode(t, s, p) {
      forall j | 0 <= j && p + 4 + 4 * j < |s|
        ensures DecodeGroup(t, s, p + 4 + 4 * j).GroupOk?
      {
        assert p + 4 + 4 * j == p + 4 * (j + 1);
      }
    }
    if DecodeGroup(t, s, p).GroupOk? && GroupsDecode(t, s, p + 4) {
      forall j | 0 <= j && p + 4 * j < |s|
        ensures DecodeGroup(t, s, p + 4 * j).GroupOk?
      {
        if j > 0 {
          assert p + 4 * j == p + 4 + 4 * (j - 1);
        }
      }
    }
  }

  /** Decoding from `p` succeeds exactly when the input from there on is
      whole groups and every one of them decodes. */
  lemma {:induction false} DoneFrom(t: seq<bv8>, s: seq<Char8>, p: nat)
    requires |t| == 256 && p <= |s|
    ensures DecodeFrom(t, s, p).Done? <==> GroupsDecode(t, s, p)
    decreases |s| - p
  {
    if p < |s| {
      assert DecodeFrom(t, s, p) == DecodeGroupThen(t, s, p);
      if DecodeGroup(t, s, p).GroupOk? {
        DoneFrom(t, s, p + 4);
        GroupsShift(t, s, p);
      } else {
        assert p + 4 * 0 == p;
      }
    }
  }

  lemma GroupArith(n: int)
    requires n >= 4
    ensures (n - 4) % 4 == n % 4
    ensures (n - 4) % 4 == 0 ==> 3 * n / 4 == 3 * (n - 4) / 4 + 3
  {
  }

  /** A successful decode from `p` consumes the whole input and writes,
      for each group, three bytes less one per `=`, when each group that
      decodes does so. */
  lemma {:induction false} DoneFromCount(t: seq<bv8>, s: seq<Char8>, p: nat)
    requires |t| == 256 && p <= |s|
    requires forall q | p <= q < |s| && DecodeGroup(t, s, q).GroupOk? ::
               |DecodeGroup(t, s, q).bytes| + PadCount(s[q..q + 4]) == 3
    ensures var d := DecodeFrom(t, s, p);
            d.Done? ==> d.inPos == |s| && (|s| - p) % 4 == 0 && |d.bytes| + PadCount(s[p..]) == 3 * (|s| - p) / 4
    decreases |s| - p
  {
    if p == |s| {
      assert s[p..] == [];
    } else {
      assert DecodeFrom(t, s, p) == DecodeGroupThen(t, s, p);
      if DecodeGroup(t, s, p).GroupOk? {
        DoneFromCount(t, s, p + 4);
        assert s[p..] == s[p..p + 4] + s[p + 4..];
        GroupArith(|s| - p);
      }
    }
  }

  /** The symbol machine reads nothing past the end of its group. */
  lemma {:induction false} SymbolScanLocal(s: seq<Char8>, m: nat, p: nat, i: nat, word: nat, np: nat)
    requires i <= 4 && p + 4 - i <= m <= |s|
    ensures SymbolScan(s[..m], p, i, word, np) == SymbolScan(s, p, i, word, np)
    decreases 4 - i
  {
    if i < 4 {
      var c := s[p];
      assert s[..m][p] == c;
      if IsSymbol(c) && !((i < 2 && c == Pad) || (np != 0 && c != Pad)) {
        SymbolScanLocal(s, m, p + 1, i + 1, NextWord(word, c), NextPad(np, c));
      }
    }
  }

  /** A group reads nothing past its end: the input cut after it decodes
      the group alike. */
  lemma GroupLocal(s: seq<Char8>, m: nat, b: nat)
    requires b + 4 <= m <= |s|
    ensures DecodeGroup(DecodeTable(), s[..m], b) == DecodeGroup(DecodeTable(), s, b)
  {
    TableGroup(s, b);
    TableGroup(s[..m], b);
    SymbolScanLocal(s, m, b, 0, 0, 0);
  }

  /** Where the group that failed with error `e`, reported at `q`,
      starts: a non-canonical group is reported after its four symbols, any
      other failure at a symbol of the group or at the end of the input. */
  function GroupStart(q: nat, e: DecodeError): int
  {
    if e == NonCanonical then q - 4 else q - q % 4
  }

  lemma GroupStartOf(p: nat, q: nat, e: DecodeError)
    requires p % 4 == 0
    requires if e == NonCanonical then q == p + 4 else p <= q < p + 4
    ensures GroupStart(q, e) == p
  {
  }

  lemma NextBoundary(p: nat)
    requires p % 4 == 0
    ensures (p + 4) % 4 == 0
  {
  }

  /** Cut after later groups, the input still decodes a group that
      decodes, and goes on after it. */
  lemma PrefixStep(s: seq<Char8>, m: nat, p: nat)
    requires p + 4 <= m <= |s| && DecodeGroup(DecodeTable(), s, p).GroupOk?
    ensures DecodeFrom(DecodeTable(), s[..m], p)
         == Prepend(DecodeGroup(DecodeTable(), s, p).bytes, DecodeFrom(DecodeTable(), s[..m], p + 4))
  {
    GroupLocal(s, m, p);
    assert DecodeFrom(DecodeTable(), s[..m], p) == DecodeGroupThen(DecodeTable(), s[..m], p);
  }

  /** When decoding from a group boundary `p` fails, the failure lies in
      the group starting at `b`, found from the reported position; every
      group before it was decoded, so the bytes written are those of the
      input cut at `b`. */
  lemma {:induction false} FailedFrom(s: seq<Char8>, p: nat)
    requires p <= |s| && p % 4 == 0 && DecodeFrom(DecodeTable(), s, p).Failed?
    ensures var d := DecodeFrom(DecodeTable(), s, p);
            var b := GroupStart(d.inPos, d.error);
            && p <= b < |s| && b % 4 == 0
            && DecodeGroup(DecodeTable(), s, b) == GroupErr(d.inPos, d.error)
            && DecodeFrom(DecodeTable(), s[..b], p) == Done(b, d.bytes)
    decreases |s| - p
  {
    var t := DecodeTable();
    assert DecodeFrom(t, s, p) == DecodeGroupThen(t, s, p);
    var g := DecodeGroup(t, s, p);
    if g.GroupOk? {
      var rest := DecodeFrom(t, s, p + 4);
      assert DecodeFrom(t, s, p) == Prepend(g.bytes, rest);
      NextBoundary(p);
      FailedFrom(s, p + 4);
      PrefixStep(s, GroupStart(rest.inPos, rest.error), p);
    } else {
      GroupStartOf(p, g.at, g.error);
      assert DecodeFrom(t, s[..p], p) == Done(p, []);
    }
  }

  /** `try_decode` succeeds exactly when the input is whole groups of four
      symbols and every group is valid. */
  lemma DecodeSucceeds(s: seq<Char8>)
    ensures Decode(s).Done? <==> |s| % 4 == 0 && forall j | 0 <= j && 4 * j < |s| :: ValidGroup(s, 4 * j)
  {
    var t := DecodeTable();
    DoneFrom(t, s, 0);
    assert GroupsDecode(t, s, 0) <==> |s| % 4 == 0 && forall j | 0 <= j && 4 * j < |s| :: DecodeGroup(t, s, 4 * j).GroupOk?;
    forall j | 0 <= j && 4 * j < |s|
      ensures DecodeGroup(t, s, 4 * j).GroupOk? <==> ValidGroup(s, 4 * j)
    {
      GroupValid(s, 4 * j);
    }
  }

  /** A successful decode reads the whole input and writes three bytes per
      group, less one per `=`. */
  lemma DecodeCount(s: seq<Char8>)
    requires Decode(s).Done?
    ensures Decode(s).inPos == |s| && |s| % 4 == 0 && |Decode(s).bytes| + PadCount(s) == 3 * |s| / 4
  {
    var t := DecodeTable();
    forall q | 0 <= q < |s| && DecodeGroup(t, s, q).GroupOk?
      ensures |DecodeGroup(t, s, q).bytes| + PadCount(s[q..q + 4]) == 3
    {
      GroupValid(s, q);
    }
    DoneFromCount(t, s, 0);
    assert s[0..] == s;
  }

  /** A successful decode writes no more than `max_size` allows, and an
      input whose length `max_size` refuses never decodes. */
  lemma DecodeWithinMaxSize(s: seq<Char8>)
    ensures Decode(s).Done? ==> MaxSize(|s|).Success? && |Decode(s).bytes| <= MaxSize(|s|).value
    ensures MaxSize(|s|).Failure? ==> MaxSize(|s|).error == MissingCharacter && Decode(s).Failed?
  {
    DecodeSucceeds(s);
    if Decode(s).Done? {
      DecodeCount(s);
    }
  }

  /** When `try_decode` fails, the failing group starts at `b`, the start
      of a group: the bytes written are exactly those of the groups before
      it, and none of its own. A group that is complete and clean but not
      canonical is reported after it; any other failure is reported at the
      first symbol with a fault, or at the end of an input that cuts the
      group short. */
  lemma DecodeFails(s: seq<Char8>)
    requires Decode(s).Failed?
    ensures var d := Decode(s);
            var b := GroupStart(d.inPos, d.error);
            && 0 <= b < |s| && b % 4 == 0
            && Decode(s[..b]) == Done(b, d.bytes)
            && (d.error == NonCanonical ==> d.inPos == b + 4 <= |s| && Clean(s, b, b + 4) && !ValidGroup(s, b))
            && (d.error != NonCanonical ==>
                  && b <= d.inPos < b + 4 && d.inPos <= |s| && Clean(s, b, d.inPos)
                  && (if d.inPos == |s| then d.error == MissingCharacter else Fault(s, b, d.inPos) == Some(d.error)))
  {
    var d := Decode(s);
    FailedFrom(s, 0);
    GroupValid(s, GroupStart(d.inPos, d.error));
  }

  /** "TQ=A": a symbol of the alphabet after `=` in the same group is
      illegal padding, reported at that symbol. */
  lemma DataAfterPadding(s: seq<Char8>)
    requires s == "TQ=A"
    ensures Decode(s) == Failed(3, [], IllegalPadding)
  {
    GroupValid(s, 0);
    assert Fault(s, 0, 0).None? && Fault(s, 0, 1).None? && Fault(s, 0, 2).None?;
    assert Fault(s, 0, 3) == Some(IllegalPadding);
    assert Decode(s) == DecodeGroupThen(DecodeTable(), s, 0);
  }

  /** A single complete group without fault that breaks the canonical
      rule is reported after it, with nothing written. */
  lemma SingleGroupNonCanonical(s: seq<Char8>)
    requires |s| == 4 && Clean(s, 0, 4) && !ValidGroup(s, 0)
    ensures Decode(s) == Failed(4, [], NonCanonical)
  {
    GroupValid(s, 0);
    assert Decode(s) == DecodeGroupThen(DecodeTable(), s, 0);
  }

  /** "TWF=": the bits the `=` stands in for are not zero, so the group is
      not canonical, reported after it. */
  lemma NonCanonicalGroup(s: seq<Char8>)
    requires s == "TWF="
    ensures Decode(s) == Failed(4, [], NonCanonical)
  {
    PositionOfAlphabet(19);
    PositionOfAlphabet(22);
    PositionOfAlphabet(5);
    assert SextetOf(s[2]) == 5;
    assert Clean(s, 0, 4);
    assert PadsAtEnd(s, 0, 4, 1);
    PadsCounted(s, 0, 1);
    SingleGroupNonCanonical(s);
  }

  /** A group of four alphabet symbols, none of them `=`, decodes. */
  lemma PlainGroupDecodes(s: seq<Char8>, b: nat)
    requires b + 4 <= |s| && forall r :: b <= r < b + 4 ==> PositionOf(s[r]) >= 0
    ensures DecodeGroup(DecodeTable(), s, b).GroupOk?
  {
    forall r | b <= r < b + 4
      ensures Fault(s, b, r).None? && s[r] != Pad
    {
      assert PositionOf(s[r]) >= 0;
    }
    assert PadsAtEnd(s, b, b + 4, 0);
    PadsCounted(s, b, 0);
    GroupValid(s, b);
  }

  /** An input of alphabet symbols alone, without `=`, decodes exactly
      when its length is a multiple of four; otherwise decoding reads all
      of it and then reports a missing character. */
  lemma AlphabetOnlyDecode(s: seq<Char8>)
    requires forall k :: 0 <= k < |s| ==> PositionOf(s[k]) >= 0
    ensures Decode(s).Done? <==> |s| % 4 == 0
    ensures Decode(s).Failed? ==> Decode(s).inPos == |s| && Decode(s).error == MissingCharacter
  {
    DecodeSucceeds(s);
    if |s| % 4 == 0 {
      PlainGroupsValid(s);
    }
    if Decode(s).Failed? {
      AlphabetOnlyFails(s);
    }
  }

  lemma AlphabetOnlyFails(s: seq<Char8>)
    requires forall k :: 0 <= k < |s| ==> PositionOf(s[k]) >= 0
    requires Decode(s).Failed?
    ensures Decode(s).inPos == |s| && Decode(s).error == MissingCharacter
  {
    var d := Decode(s);
    DecodeFails(s);
    var b := GroupStart(d.inPos, d.error);
    if d.error == NonCanonical {
      PlainGroupDecodes(s, b);
      GroupValid(s, b);
      assert false;
    } else if d.inPos < |s| {
      assert false;
    }
  }

  lemma PlainGroupsValid(s: seq<Char8>)
    requires forall k :: 0 <= k < |s| ==> PositionOf(s[k]) >= 0
    requires |s| % 4 == 0
    ensures forall j | 0 <= j && 4 * j < |s| :: ValidGroup(s, 4 * j)
  {
    forall j | 0 <= j && 4 * j < |s|
      ensures ValidGroup(s, 4 * j)
    {
      PlainGroupDecodes(s, 4 * j);
      GroupValid(s, 4 * j);
    }
  }
}
