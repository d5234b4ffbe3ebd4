# Base64 codec of `base64.h`, modelled in Dafny

This project models the Base64 part of the header-only C++ library
`base64.h`, following section 4 of RFC 4648. It covers four pieces:

- **Encoder `encode64`.** It cuts a byte range into chunks of three. Each
  chunk is folded into a word whose otherwise unused top byte counts the
  missing bytes. Each word then becomes four symbols of the 64-symbol
  alphabet, with `=` in place of the missing bytes.
- **Decoder `try_decode64`.** It builds a 256-entry lookup table from the
  alphabet once. Then it reads the input in groups of four symbols through
  an optional projection, and writes the bytes of each group through an
  output iterator. It stops at the first group that is malformed. It
  reports an illegal character, a missing character, misplaced padding or
  a non-canonical group, together with the input position where the
  problem was found.
- **Size bound.** `max_size` and `decode64_max_size` give an upper bound on
  the decoded size. They refuse lengths that are not a multiple of four.
- **Materialisers for `std::vector`.**
  - `try_decode64_to<std::vector>` has two overloads. One appends through a
    `back_insert_iterator`. The other, for inputs of known length,
    allocates the bound first and then resizes to what was written.
  - `decode64_to<std::vector>` returns an empty vector on error.

The model has nine modules:

| module | what it holds |
|---|---|
| `Base64Types` | the value types |
| `Alphabet` | the alphabet and the imperative table-building loop |
| `Encode64` | the encoder, as pure functions over `bv32` words as in the source |
| `EncodeFacts` | what the encoder promises |
| `ByteVectors` | the vector as a class, and the two output iterators |
| `Decode64` | the decoder's loops, as methods proved against the functions `ScanGroup`, `DecodeGroup` and `Decode` |
| `DecodeFacts` | what the decoder accepts and rejects, stated symbol by symbol |
| `RoundTrip` | decode after encode, and encode after decode |
| `DecodeTo` | the materialisers |

**Two behaviours of the code worth knowing.**

- **Padding is checked group by group.** The checks on `=` look only at
  the current group of four symbols (src/base64.h:119-147). So the decoder
  also accepts a group that holds `=` in the middle of the input.
  - "TQ==TWFu" decodes to the four bytes of "M" and "Man"
    (`RoundTrip.InteriorPadding`).
  - Those bytes re-encode as "TU1hbg==", not as the input
    (`RoundTrip.InteriorPaddingReencoded`).
  - So re-encoding a successful decode gives the input back exactly when
    no group but the last holds `=` (`RoundTrip.EncodeDecode`). It is not
    enough for each group to be canonical.
- **The two overloads of `try_decode64_to<std::vector>` can report
  different errors.** The pre-sizing overload calls `decode64_max_size`
  first. Whenever the length is not a multiple of four, it fails with
  `missing_character` before reading any symbol (src/base64.h:214-217).
  The appending overload reports the first fault that `try_decode64`
  meets (src/base64.h:204-206).
  - For "!AB" these differ: `illegal_character` against
    `missing_character` (`DecodeTo.StrategiesDiffer`).
  - They agree on every success, and on every input whose length is a
    multiple of four (`DecodeTo.StrategiesAgree`).

## Model

| member | source | states |
|---|---|---|
| Alphabet.AlphabetSpelledOut | src/base64.h:32 | the alphabet defined by character ranges is exactly the 64-character string `A`–`Z`, `a`–`z`, `0`–`9`, `+`, `/` |
| Alphabet.PositionOfAlphabet | src/base64.h:32 | each symbol's position in the alphabet is found again from the symbol |
| Alphabet.PositionFound | src/base64.h:32 | a character has a position exactly when it is in the alphabet, and the alphabet holds it at that position |
| Alphabet.AlphabetDistinct | src/base64.h:32 | no symbol occurs twice in the alphabet, and `=` is not one of them |
| Alphabet.PositionOf | src/base64.h:32 | the position of a character in the alphabet, or -1; it lies in `-1 .. 63`, and `PositionOfAlphabet` and `PositionFound` prove it inverts the alphabet in both directions |
| Alphabet.Lookup | src/base64.h:100-109 | the entry the table holds for a character; `LookupDecodes` states what its valid bit, padding bit and sextet mean, and `TableComplete` that the loop produces it |
| Alphabet.TableAfterSymbol | src/base64.h:106-108 | after the loop has passed symbol `i`, its entry is `is_valid` with the position `i` |
| Alphabet.TableAfterOther | src/base64.h:104-108 | a character outside the alphabet keeps the zero entry of the value-initialised table |
| Alphabet.TableComplete | src/base64.h:103-111 | after the whole loop, every entry other than that of `=` is as `Lookup` describes |
| Alphabet.TableFrom | src/base64.h:98-111 | the table's entries from code `k` on, built entry by entry; `TableFromAt` proves entry `j` is the `Lookup` of code `j` |
| Alphabet.DecodeTable | src/base64.h:98-111 | the whole table, 256 entries indexed by `unsigned char`; `DecodeTableAt` reads entry `k`, and `BuildLookup` proves the loop builds it |
| Alphabet.LookupDecodes | src/base64.h:100-111 | the valid bit is set exactly for the alphabet and `=`; the top bit is set exactly for `=`; the low six bits of an alphabet symbol's entry are its position, and zero for `=` |
| Alphabet.SymbolEntry | src/base64.h:107 | `is_valid` or-ed with `i` keeps the valid bit, keeps `i` in the low six bits, and leaves the padding bit clear |
| Alphabet.DecodeTableAt | src/base64.h:98-111 | entry `k` of the table is the entry of the character with code `k` |
| Alphabet.BuildLookup | src/base64.h:103-111 | the table-building loop yields exactly the table of the decoder: alphabet symbols valid with their positions, `=` valid padding, everything else zero |
| Encode64.PackChunk | src/base64.h:51-59 | the word folded from a chunk of one to three bytes holds `3 - n` missing bytes in its top byte and the bytes, first most significant, in its low 24 bits |
| Encode64.FoldChunk | src/base64.h:56-59 | the `fold_left` starting from three missing bytes gives the missing-byte count for one, two or three bytes or-ed with the big-endian value of the bytes |
| Encode64.FoldOneByte | src/base64.h:56-59 | folding one byte gives two missing bytes and the byte |
| Encode64.FoldTwoBytes | src/base64.h:56-59 | folding two bytes gives one missing byte and the two bytes big-endian |
| Encode64.FoldThreeBytes | src/base64.h:56-59 | folding three bytes gives no missing byte and the three bytes big-endian |
| Encode64.FoldStep | src/base64.h:56-59 | the fold's lambda: one fewer missing byte in the top byte, the byte shifted into the low 24 bits; its effect over a chunk is stated by `FoldOneByte`, `FoldTwoBytes` and `FoldThreeBytes` |
| Encode64.FoldLeft | src/base64.h:56 | `fold_left` over a chunk; `FoldChunk` states its result for one, two and three bytes |
| Encode64.Symbol | src/base64.h:62-71 | symbol `i` of a word: `=` when `i < num_missing`, else the alphabet symbol at `SymbolIndex`; `EncodeChunkSextets` states what the four symbols are |
| Encode64.SymbolIndex | src/base64.h:70 | the shifted, masked word is a valid alphabet position, below 64 |
| Encode64.IndicesThreeBytes | src/base64.h:64-70 | for a full chunk the four indices are the four 6-bit groups of the 24 bits, as section 4 of RFC 4648 cuts them |
| Encode64.IndicesTwoBytes | src/base64.h:64-70 | for a two-byte chunk, the shift by `8 * num_missing` aligns the bytes, and the three indices are the RFC's sextets with the missing bits zero |
| Encode64.IndicesOneByte | src/base64.h:64-70 | for a one-byte chunk, the two indices are the RFC's sextets with the missing bits zero |
| Encode64.EncodeChunkSextets | src/base64.h:48-71 | a chunk of `n` bytes becomes the alphabet symbols of its first `n + 1` RFC sextets followed by `3 - n` `=` |
| Encode64.EncodeChunk | src/base64.h:48-71 | the four symbols of one chunk, from symbol 3 down to symbol 0; `EncodeChunkSextets` and `ChunkShape` state them in terms of the RFC sextets |
| Encode64.Encode | src/base64.h:36-73 | `encode64` over a whole byte sequence, chunk after chunk; `EncodeShape` states its length and padding, `EncodeConcat` that it works chunk by chunk, and `RoundTrip.DecodeEncode` that decoding inverts it |
| Encode64.ChunkOfOne | src/base64.h:61-71 | one byte encodes as two symbols and `==` |
| Encode64.ChunkOfTwo | src/base64.h:61-71 | two bytes encode as three symbols and `=` |
| Encode64.ChunkOfThree | src/base64.h:61-71 | three bytes encode as four symbols, without padding |
| EncodeFacts.ChunkShape | src/base64.h:61-71 | a chunk's four symbols are `=` exactly past position `n`, and alphabet symbols before it |
| EncodeFacts.EncodeShape | src/base64.h:36-73 | the encoding of `n` bytes has `4 * ceil(n / 3)` symbols, is empty exactly for no bytes, ends in exactly `(3 - n % 3) % 3` `=`, and all its other symbols are in the alphabet |
| EncodeFacts.EncodeConcat | src/base64.h:48-50 | bytes that fill whole chunks encode independently of what follows: `encode(a + b) == encode(a) + encode(b)` when `3` divides the length of `a` |
| EncodeFacts.EncodeOneChunk | src/base64.h:48-71 | one to three bytes encode as their single chunk |
| EncodeFacts.EncodesThree | src/base64.h:48-71 | a full chunk encodes as the alphabet symbols of its four sextets |
| EncodeFacts.EncodesTwo | src/base64.h:48-71 | a two-byte chunk encodes as three sextet symbols and `=` |
| EncodeFacts.EncodesOne | src/base64.h:48-71 | a one-byte chunk encodes as two sextet symbols and `==` |
| EncodeFacts.EncodesMan | test/test.cpp:92 | "Man" encodes as "TWFu" |
| EncodeFacts.EncodesMa | test/test.cpp:93 | "Ma" encodes as "TWE=" |
| EncodeFacts.EncodesM | test/test.cpp:94 | "M" encodes as "TQ==" |
| EncodeFacts.EncodesLightWorkDot | test/test.cpp:81 | "light work." encodes as "bGlnaHQgd29yay4=" |
| EncodeFacts.EncodesLightWork | test/test.cpp:82 | "light work" encodes as "bGlnaHQgd29yaw==" |
| EncodeFacts.EncodesLightWor | test/test.cpp:83 | "light wor" encodes as "bGlnaHQgd29y" |
| EncodeFacts.EncodesLightWorBytes | test/test.cpp:83 | the bytes of "light wor" encode chunk by chunk as "bGln", "aHQg", "d29y" |
| EncodeFacts.EncodesLightWorkDotBytes | test/test.cpp:81 | the bytes of "light work." encode as three full chunks then "ay4=" |
| EncodeFacts.EncodesLightWorkBytes | test/test.cpp:82 | the bytes of "light work" encode as three full chunks then "aw==" |
| ByteVectors.ByteVector.constructor | src/base64.h:220 | `std::vector<std::byte> v(n)` holds `n` zero bytes |
| ByteVectors.ByteVector.PushBack | src/base64.h:204 | the back inserter's write appends one byte and changes nothing else |
| ByteVectors.ByteVector.Set | src/base64.h:150 | a write through an iterator into the vector replaces exactly the element at its position |
| ByteVectors.ByteVector.Resize | src/base64.h:225 | `resize` truncates to the prefix, or extends with zero bytes |
| ByteVectors.Advance | src/base64.h:150 | after `n` writes a positioned iterator has moved `n` places, and a back inserter is still a back inserter |
| ByteVectors.Store | src/base64.h:150 | writing `bs` appends them through a back inserter, and keeps the length of the vector through a positioned iterator |
| ByteVectors.StoreMore | src/base64.h:149-151 | writing `bs` and then `more` from where the iterator stopped is writing `bs + more` |
| ByteVectors.Put | src/base64.h:150 | `*result++ = b` stores `b` through either iterator and advances it by one |
| Decode64.MaxSize | src/base64.h:79-86 | fails with `missing_character` exactly when the length is not a multiple of four, and otherwise gives three bytes per four symbols |
| Decode64.DecodedMaxSize | src/base64.h:175-185 | `decode64_max_size` of an input of known length: fails with `missing_character` exactly when the length is not a multiple of four, otherwise three bytes per four symbols |
| Decode64.ScanShift | src/base64.h:127-135 | a valid symbol in an allowed place shifts its sextet into the word and adds its padding bit to the count |
| Decode64.ScanGroup | src/base64.h:116-142 | the inner loop over one group on table entries; `DecodeFacts.GroupClassified` (through `TableScan`) states when it accepts and which error it reports where, and `ScanBounds` its bounds |
| Decode64.ScanBounds | src/base64.h:116-142 | the group loop stops within four symbols, with at most two `=`, reporting a position inside the group or the end of the input |
| Decode64.DecodeGroup | src/base64.h:113-151 | a group either writes at most three bytes and ends within the input, or fails at a position inside it, or, for `non_canonical`, right after it |
| Decode64.NonCanonicalWord | src/base64.h:143 | the canonical check: bits 6-7 of the word must be zero after one `=`, bits 12-15 after two; `RoundTrip.ChunkCanonical` proves the encoder never trips it, and `DecodeFacts.NonCanonicalGroup` shows "TWF=" does |
| Decode64.WordByte | src/base64.h:150 | byte `k` of the word, `static_cast<std::byte>(word >> ((2 - k) * 8))`; `RoundTrip.BytesOfWord` and `RoundTrip.WordByteValue` prove it recovers the bytes the word was built from |
| Decode64.GroupBytes | src/base64.h:149-151 | a group writes `3 - num_padding` bytes |
| Decode64.Prepend | src/base64.h:149-152 | the bytes of one group come before everything later groups write, and the outcome and the position are theirs |
| Decode64.DecodeFrom | src/base64.h:113-154 | decoding from a position never moves backwards and stays within the input |
| Decode64.DecodeGroupThen | src/base64.h:113-152 | one pass of the outer loop followed by the rest: decoding never moves backwards and stays within the input |
| Decode64.Decode | src/base64.h:88-155 | `try_decode64` over a whole input; `DecodeFacts.DecodeSucceeds`, `DecodeCount` and `DecodeFails` state when it succeeds, what it writes and where it stops |
| Decode64.Reported | src/base64.h:122-154 | the value `try_decode64` returns for an outcome: the input position and the output iterator moved past the bytes written, with the error on failure; `TryDecode` is proved to return it |
| Decode64.Project | src/base64.h:120 | the decoder sees `proj` applied to each element of the input |
| Decode64.PrependPrepend | src/base64.h:149-151 | writing two groups' bytes one after the other is writing their concatenation |
| Decode64.GroupFails | src/base64.h:121-142 | a group rejected by the inner loop stops decoding at the reported symbol, writing nothing more |
| Decode64.GroupNonCanonical | src/base64.h:143-148 | a complete group with non-zero bits under its padding stops decoding after the group |
| Decode64.GroupAccepted | src/base64.h:143-152 | a complete canonical group writes its bytes, and decoding resumes after it |
| Decode64.ProgressGroup | src/base64.h:113-152 | the outer loop's invariant holds after a valid group is written |
| Decode64.ProgressStops | src/base64.h:137-154 | when the loop ends, the vector holds every decoded byte and the result reports the outcome |
| Decode64.ProgressRejected | src/base64.h:121-141 | a rejected group ends the loop with its error and the output iterator where the earlier groups left it |
| Decode64.ProgressNonCanonical | src/base64.h:143-147 | a non-canonical group ends the loop with `non_canonical` after the group |
| Decode64.ReadGroup | src/base64.h:116-142 | the inner loop over one group returns what `ScanGroup` computes: the word and the padding count, or the first error and its position |
| Decode64.WriteGroup | src/base64.h:149-151 | the write loop stores exactly the group's bytes, most significant first, and advances the iterator by their number |
| Decode64.DecodeGroups | src/base64.h:113-154 | the outer loop stores exactly the bytes of `Decode` through the iterator, and returns the input position and iterator of `Decode`, with its error on failure |
| Decode64.TryDecode | src/base64.h:88-155 | `try_decode` with its lookup table, over any projected input, has the effect and result of `Decode` |
| DecodeFacts.SextetOf | src/base64.h:120-135 | a symbol contributes a sextet below 64 |
| DecodeFacts.TableDecodesSymbols | src/base64.h:98-111 | every entry of the table marks validity and padding as the symbol it belongs to demands |
| DecodeFacts.TableScan | src/base64.h:119-136 | the loop over table entries classifies a group exactly as the rule stated on symbols |
| DecodeFacts.StepRejects | src/base64.h:121-133 | an invalid symbol, or `=` in the wrong place, is rejected the same way on entries and on symbols |
| DecodeFacts.StepShifts | src/base64.h:134-135 | an accepted symbol advances both descriptions alike |
| DecodeFacts.ScanFrom | src/base64.h:119-142 | the inner loop, started on a clean prefix, accepts a complete clean group or stops at its first fault or at the end of the input |
| DecodeFacts.FaultStep | src/base64.h:121-133 | one more symbol without fault keeps the group clean and its `=` at the end |
| DecodeFacts.GroupClassified | src/base64.h:119-142 | the inner loop accepts a group exactly when four symbols are present and none has a fault; then its `=` come last and number at most two; otherwise the error is that of the first fault, or `missing_character` at the end of the input |
| DecodeFacts.SymbolWord | src/base64.h:135 | the assembled word is the group's four sextets side by side |
| DecodeFacts.PadsCounted | src/base64.h:134 | `num_padding` is the number of `=` in the group |
| DecodeFacts.TableGroup | src/base64.h:113-151 | through the decoder's table, a group decodes as the symbol-level rule says |
| DecodeFacts.GroupValid | src/base64.h:119-151 | a group decodes exactly when it is complete, without fault and canonical, and then writes `3 - n` bytes of its word for its `n` `=`; a clean group with non-zero padding bits fails after the group; every other group fails at its first fault, or at the end of the input |
| DecodeFacts.SymbolGroupValid | src/base64.h:119-151 | the same classification for the group rule stated on symbols |
| DecodeFacts.GroupsShift | src/base64.h:113 | the input from a group on decodes exactly when that group and everything after it decode |
| DecodeFacts.DoneFrom | src/base64.h:113-154 | decoding from a position succeeds exactly when the rest is whole groups that all decode |
| DecodeFacts.DoneFromCount | src/base64.h:113-154 | a successful decode from a position writes three bytes per group less one per `=` |
| DecodeFacts.SymbolScanLocal | src/base64.h:119-136 | a group's scan depends only on its own four symbols |
| DecodeFacts.GroupLocal | src/base64.h:113-151 | cutting the input after a group does not change how that group decodes |
| DecodeFacts.GroupStartOf | src/base64.h:122-147 | the group that failed is recovered from the reported position and error |
| DecodeFacts.PrefixStep | src/base64.h:149-152 | in the input cut after later groups, a valid group still writes its bytes before the rest |
| DecodeFacts.FailedFrom | src/base64.h:113-154 | when decoding fails, the failed group starts at a multiple of four, and the bytes written are those of the input cut at that group |
| DecodeFacts.DecodeSucceeds | src/base64.h:113-154 | `try_decode` succeeds exactly when the length is a multiple of four and every group is valid |
| DecodeFacts.DecodeCount | src/base64.h:149-154 | a successful decode consumes the whole input and writes `3 * n / 4` bytes less one per `=` |
| DecodeFacts.DecodeWithinMaxSize | src/base64.h:79-86 | a successful decode writes no more than `max_size` allows, and an input whose length `max_size` refuses never decodes |
| DecodeFacts.DecodeFails | src/base64.h:113-154 | a failed decode keeps the bytes of every group before the failing one and none of its own; the error is at the first fault, at the end of a short input, or after a non-canonical group |
| DecodeFacts.DataAfterPadding | src/base64.h:128-132 | "TQ=A" fails with `illegal_padding` at the `A` |
| DecodeFacts.SingleGroupNonCanonical | src/base64.h:143-147 | a single complete clean group that is not canonical fails with `non_canonical` after it, writing nothing |
| DecodeFacts.NonCanonicalGroup | src/base64.h:143-147 | "TWF=" fails with `non_canonical` after the group |
| DecodeFacts.PlainGroupDecodes | src/base64.h:119-151 | a group of four alphabet symbols without `=` always decodes |
| DecodeFacts.PlainGroupsValid | src/base64.h:119-151 | in whole groups of alphabet symbols without `=`, every group is valid |
| DecodeFacts.AlphabetOnlyDecode | src/base64.h:113-142 | an input of alphabet symbols without `=` decodes exactly when its length is a multiple of four, and otherwise fails with `missing_character` at its end |
| DecodeFacts.AlphabetOnlyFails | src/base64.h:137-141 | such an input can fail only with `missing_character` at its end |
| RoundTrip.RfcSextetArith | src/base64.h:64-70 | the encoder's shifts and masks of the bytes compute the RFC sextets as quotients and remainders |
| RoundTrip.WordOfBytes | src/base64.h:135 | four sextets side by side are three bytes side by side |
| RoundTrip.BytesOfWord | src/base64.h:150 | the shifted and truncated bytes of the word are the bytes it was built from |
| RoundTrip.ChunkSextetWord | src/base64.h:135 | the word the decoder builds from an encoded chunk's symbols is the chunk's bytes shifted up by the missing bytes |
| RoundTrip.ChunkCanonical | src/base64.h:143 | the encoder's output is canonical: the bits under its `=` are zero |
| RoundTrip.ChunkBytes | src/base64.h:149-151 | the bytes decoded from an encoded chunk's word are the chunk |
| RoundTrip.ChunkSymbols | src/base64.h:120-135 | the symbols of an encoded chunk are all valid, are `=` exactly past its bytes, and carry the chunk's RFC sextets |
| RoundTrip.ChunkClean | src/base64.h:121-133 | the group of an encoded chunk has no fault, and its `=` come last |
| RoundTrip.ChunkDecodes | src/base64.h:113-151 | the decoder accepts the four symbols of an encoded chunk and writes the chunk |
| RoundTrip.DecodeEncodedFrom | src/base64.h:113-154 | from a position where an encoding starts, decoding reads to the end and writes the encoded bytes |
| RoundTrip.DecodeEncode | test/test.cpp:39-46 | decoding any encoding succeeds, consumes it all, and gives back the bytes encoded |
| RoundTrip.GroupShape | src/base64.h:127-134 | a clean group is alphabet symbols followed by at most two `=` |
| RoundTrip.GroupSextets | src/base64.h:135-151 | the bytes of a valid group carry the sextets of its symbols |
| RoundTrip.WordSextets | src/base64.h:135-151 | the bytes of a canonical word have the sextets it was built from |
| RoundTrip.GroupReencodes | src/base64.h:61-71 | encoding the bytes of a valid group gives the group back |
| RoundTrip.GroupDecodes | src/base64.h:143-151 | a valid group writes the bytes its symbols stand for |
| RoundTrip.ReencodeFrom | src/base64.h:113-154 | re-encoding what a successful decode from a position writes gives the rest of the input, when no group but the last holds `=` |
| RoundTrip.LastGroup | src/base64.h:127-133 | an accepted group holding `=`, followed only by accepted groups, is the last group when no earlier symbol is `=` |
| RoundTrip.ReencodeStep | src/base64.h:48-71 | one re-encoded group in front of the re-encoded rest gives the input from that group on |
| RoundTrip.EncodeDecode | test/test.cpp:44-45 | re-encoding the bytes of a successful decode gives the input back exactly when no group but the last holds `=` |
| RoundTrip.DecodesMan | test/test.cpp:92 | "TWFu" decodes to the bytes of "Man" |
| RoundTrip.DecodesMa | test/test.cpp:93 | "TWE=" decodes to the bytes of "Ma" |
| RoundTrip.DecodesM | test/test.cpp:94 | "TQ==" decodes to the byte of "M" |
| RoundTrip.InteriorPadding | src/base64.h:113-151 | "TQ==TWFu", with `=` in its first group, decodes to the bytes of "M" then "Man" |
| RoundTrip.DecodeChunkThenEncoded | src/base64.h:113-154 | one encoded chunk followed by an encoding decodes to both, whatever padding the chunk holds |
| RoundTrip.InteriorPaddingReencoded | src/base64.h:113-151 | the bytes "TQ==TWFu" decodes to do not re-encode as "TQ==TWFu" |
| DecodeTo.Outcome | src/base64.h:205-206 | the result succeeds exactly when decoding does, holds the decoded bytes, and keeps only the error kind |
| DecodeTo.GrowingResult | src/base64.h:196-207 | what the appending overload returns; `TryDecodeToVectorGrowing` is proved to return it and `StrategiesAgree` compares it with the other overload |
| DecodeTo.SizedResult | src/base64.h:209-230 | what the pre-sizing overload returns: the `max_size` error first, else the decode's outcome; `TryDecodeToVectorSized` is proved to return it |
| DecodeTo.DecodeToResult | src/base64.h:233-242 | what `decode_to` returns; `DecodeToEmptyOnError` states it is the decoded bytes on success and empty on error |
| DecodeTo.TryDecodeToVectorGrowing | src/base64.h:196-207 | an empty vector filled through a back inserter holds exactly the decoded bytes on success, and the error kind is returned on failure |
| DecodeTo.TryDecodeToVectorSized | src/base64.h:209-230 | refuses a length `max_size` refuses before decoding; otherwise decodes into the pre-sized vector, resizes it to what was written, and returns the decoded bytes or the error kind |
| DecodeTo.DecodeToVector | src/base64.h:233-242 | `decode_to` gives the decoded bytes, or an empty vector on any error |
| DecodeTo.DecodeWritesAtMost | src/base64.h:214-222 | whether decoding succeeds or fails, it writes no more than the `max_size` bound the vector was sized by |
| DecodeTo.StrategiesAgree | src/base64.h:196-230 | the two overloads agree on success and on the bytes, agree completely when the length is a multiple of four, and otherwise the pre-sizing one reports `missing_character` |
| DecodeTo.DecodeToEmptyOnError | src/base64.h:240 | `decode_to` gives the decoded bytes exactly when decoding succeeds, and no bytes otherwise |
| DecodeTo.StrategiesDiffer | src/base64.h:214-217 | for "!AB" the appending overload reports `illegal_character` and the pre-sizing one `missing_character` |
| DecodeTo.MissingLastSymbol | test/test.cpp:125-127 | for "01C0FFEE5" both overloads report `missing_character` |

## Left out

- The debugging output `std::cout << i << ", " << num_missing` in the encoder (src/base64.h:66) is I/O and is not modelled.
- Laziness is not modelled. The encoder is a function from a whole byte sequence to a whole symbol sequence, not a lazy view. The `range_adaptor_closure`, concept and `requires` machinery is left out.
- Inputs are sequences, and the decoder reads each symbol once, as over an input iterator. Single-pass `istream` inputs (test/test.cpp:48-70) are therefore sequences too.
- Which overload of `try_decode64_to<std::vector>` C++ picks for a range is not modelled; both overloads are methods. `DecodeToVector` uses the pre-sizing one, because a sequence knows its length.
- The iterator-and-sentinel overload of `try_decode` and the range overload (src/base64.h:157-166) are one method over a sequence.
- `std::expected`, `in_out_result` and `decode64_error_result` are Dafny datatypes. Input positions are indices, and output iterators are positions or a back inserter.
- Decode64.MaxSize: the model's bound `3 * n / 4` is exact for every length; the source computes `3 * input_size` in `size_t`, which wraps for lengths above `SIZE_MAX / 3`, and the model does not reproduce that wrap because the width of `size_t` depends on the platform.
- Decode64.TryDecode: rebuilds the lookup table with `BuildLookup` on every call, where the source builds a `static constexpr` table once; `BuildLookup` ensures the table is always `DecodeTable()`, so every call sees the same table.
- The decoder's `unsigned long` word is a natural number. Four sextets fill 24 bits, so no bit is lost. The encoder's word is a `bv32`, as wide as the 32-bit minimum of `unsigned long`.
- `decode64_to` and `try_decode64_to` for containers other than `std::vector` are declared but not defined in src/base64.h, so they are not modelled.
- The Base16 codec is not in src/base64.h and is not part of this model.
- The test harness and its `static_assert`s are not modelled. The test vectors they use are lemmas.
