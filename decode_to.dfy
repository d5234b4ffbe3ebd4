/** The materialisers `try_decode_to<std::vector>` (src/base64.h:188-231) and
    `decode_to` (src/base64.h:233-242): decode a whole input into a fresh
    vector and keep only the error kind. One overload appends through a
    `back_insert_iterator`; the other, for inputs whose length is known,
    sizes the vector by `decode64_max_size` first and then cuts it to what
    was written. */
module DecodeTo {
  import opened Base64Types
  import opened Alphabet
  import opened ByteVectors
  import opened Decode64
  import opened DecodeFacts

  /** A decoding outcome reduced to what the caller sees: the bytes, or
      the error kind without positions. */
  function Outcome(d: Decoded): (r: Result<seq<byte>, DecodeError>)
    ensures r.Success? <==> d.Done?
    ensures r.Success? ==> r.value == d.bytes
    ensures r.Failure? ==> r.error == d.error
  {
    match d
    case Done(_, bs) => Success(bs)
    case Failed(_, _, e) => Failure(e)
  }

  /** What the appending overload returns for the symbols `s`. */
  function GrowingResult(s: seq<Char8>): Result<seq<byte>, DecodeError>
  {
    Outcome(Decode(s))
  }

  /** What the pre-sizing overload returns for the symbols `s`: a length
      that `max_size` refuses fails before any symbol is read. */
  function SizedResult(s: seq<Char8>): Result<seq<byte>, DecodeError>
  {
    match MaxSize(|s|)
    case Failure(e) => Failure(e)
    case Success(_) => Outcome(Decode(s))
  }

  /** What `decode_to<std::vector>` returns: the bytes, or no bytes at all
      when decoding fails. */
  function DecodeToResult(s: seq<Char8>): seq<byte>
  {
    match SizedResult(s)
    case Success(bs) => bs
    case Failure(_) => []
  }

  /** `try_decode_to<std::vector>` through a `back_insert_iterator`
      (src/base64.h:196-207): the vector starts empty and grows by one
      element per byte written. */
  method TryDecodeToVectorGrowing<T>(input: seq<T>, proj: T -> Char8) returns (r: Result<seq<byte>, DecodeError>)
    ensures r == GrowingResult(Project(input, proj))
  {
    ghost var d := Decode(Project(input, proj));
    var v := new ByteVector(0);
    assert v.elems == [];
    var result := TryDecode(input, proj, v, BackInserter);
    assert v.elems == [] + d.bytes == d.bytes;
    assert result.Ok? <==> d.Done?;
    if result.Ok? {
      r := Success(v.elems);
    } else {
      r := Failure(result.error);
    }
  }

  /** `try_decode_to<std::vector>` into a vector sized in advance
      (src/base64.h:209-230): `decode64_max_size` bytes, written from the
      start, then resized to the count written. */
  method TryDecodeToVectorSized<T>(input: seq<T>, proj: T -> Char8) returns (r: Result<seq<byte>, DecodeError>)
    ensures r == SizedResult(Project(input, proj))
  {
    ghost var s := Project(input, proj);
    ghost var d := Decode(s);
    var size := DecodedMaxSize(input);
    if size.Failure? {
      return Failure(size.error);
    }
    var v := new ByteVector(size.value);
    DecodeWritesAtMost(s);
    var result := TryDecode(input, proj, v, Position(0));
    if result.Ok? {
      v.Resize(result.out.index - 0);
      assert v.elems == d.bytes;
      r := Success(v.elems);
    } else {
      r := Failure(result.error);
    }
  }

  /** `decode_to<std::vector>` (src/base64.h:233-242): the result of
      `try_decode_to`, or an empty vector on error. A sequence knows its
      length, so the pre-sizing overload is the one chosen. */
  method DecodeToVector<T>(input: seq<T>, proj: T -> Char8) returns (bytes: seq<byte>)
    ensures bytes == DecodeToResult(Project(input, proj))
  {
    var r := TryDecodeToVectorSized(input, proj);
    bytes := if r.Success? then r.value else [];
  }

  /** Whether decoding succeeds or fails, it writes at most three bytes per
      whole group of four symbols: the bound the pre-sized vector has room
      for. */
  lemma DecodeWritesAtMost(s: seq<Char8>)
    ensures |Decode(s).bytes| <= 3 * |s| / 4
  {
    var d := Decode(s);
    if d.Done? {
      DecodeCount(s);
    } else {
      DecodeFails(s);
      var b := GroupStart(d.inPos, d.error);
      DecodeCount(s[..b]);
    }
  }

  /** The two overloads agree on success and on failure, and on the error
      when the input length is a multiple of four; otherwise the
      pre-sizing one reports a missing character. */
  lemma StrategiesAgree(s: seq<Char8>)
    ensures SizedResult(s).Success? <==> GrowingResult(s).Success?
    ensures SizedResult(s).Success? ==> SizedResult(s).value == GrowingResult(s).value
    ensures |s| % 4 == 0 ==> SizedResult(s) == GrowingResult(s)
    ensures |s| % 4 != 0 ==> SizedResult(s) == Failure(MissingCharacter)
  {
    DecodeWithinMaxSize(s);
  }

  /** `decode_to` gives the decoded bytes exactly when decoding succeeds,
      and no bytes otherwise. */
  lemma DecodeToEmptyOnError(s: seq<Char8>)
    ensures Decode(s).Done? ==> DecodeToResult(s) == Decode(s).bytes
    ensures Decode(s).Failed? ==> DecodeToResult(s) == []
  {
    DecodeWithinMaxSize(s);
  }

  /** "!AB": the appending overload reports the character outside the
      alphabet, the pre-sizing one the length that is not a multiple of
      four. */
  lemma StrategiesDiffer(s: seq<Char8>)
    requires s == "!AB"
    ensures GrowingResult(s) == Failure(IllegalCharacter)
    ensures SizedResult(s) == Failure(MissingCharacter)
  {
    var d := Decode(s);
    DecodeWithinMaxSize(s);
    DecodeFails(s);
    assert Fault(s, 0, 0) == Some(IllegalCharacter);
  }

  /** "01C0FFEE5": two whole groups and one symbol more. Both overloads
      report a missing character, the appending one after decoding the two
      groups. */
  lemma MissingLastSymbol(s: seq<Char8>)
    requires s == "01C0FFEE5"
    ensures GrowingResult(s) == Failure(MissingCharacter)
    ensures SizedResult(s) == Failure(MissingCharacter)
  {
    assert forall k :: 0 <= k < |s| ==> PositionOf(s[k]) >= 0;
    AlphabetOnlyDecode(s);
  }
}
