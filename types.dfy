/** Value types shared by the encoder and the decoder (src/base64.h:17-28). */
module Base64Types {

  /** `std::byte`. */
  type byte = bv8

  /** A C++ `char` read as `unsigned char`: a character whose code fits in
      eight bits. */
  type Char8 = c: char | c as int < 256 witness 'A'

  /** `std::expected<T, E>`. */
  datatype Result<+T, +E> = Success(value: T) | Failure(error: E)

  datatype Option<+T> = None | Some(value: T)

  /** `decode64_error`. */
  datatype DecodeError = IllegalCharacter | MissingCharacter | IllegalPadding | NonCanonical

  function Min(a: nat, b: nat): nat
  {
    if a < b then a else b
  }

  /** A small number survives the trip through a byte. */
  lemma SmallRoundTrip(i: nat)
    requires i < 64
    ensures (i as bv8) as int == i
  {
    assert i as bv8 == (i as bv6) as bv8;
  }
}
