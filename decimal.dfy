/**
 * src/all_ascii/decimal.rs: a signed decimal token.  With decimal places a
 * header byte carries the marker 11, the sign (bit 5), the decimal flag
 * (bit 4) and the place count (bits 0-3), and the value follows as unsigned
 * LEB128; without places the tags go into the first byte of
 * `encode(val, 4)`, leaving bit 4 clear.
 */
module Decimal {
  import opened Bytes
  import opened Vle
  import opened Digits
  import opened Numeric

  /** `BITS_COUNT_OF_FIRST_BYTE`. */
  const FIRST_BYTE_BITS: nat := 4
  /** `BITS_COUNT_OF_FIRST_BYTE_WITH_DECIMAL`. */
  const FIRST_BYTE_BITS_WITH_DECIMAL: nat := 0
  /** `NEGATIVE_FLAG`. */
  const NEGATIVE_FLAG: nat := 0x20
  /** `DECIMAL_FLAG`. */
  const DECIMAL_FLAG: nat := 0x10

  /** Only non-negative whole numbers below 100 are declined. */
  predicate Accepts(val: nat, negative: bool, places: nat)
  {
    !(!negative && places == 0 && val < 100)
  }

  /** The marker, sign and decimal-flag bits (`first_byte_msb`). */
  function Flags(negative: bool, places: nat): nat
  {
    NUMERICAL_HOLDER_FLAG + (if negative then NEGATIVE_FLAG else 0) + (if places > 0 then DECIMAL_FLAG else 0)
  }

  /** The bytes the encoder appends for an accepted value. */
  function Token(val: nat, negative: bool, places: nat): (t: seq<u8>)
    requires places <= 15
  {
    if places > 0 then [Flags(negative, places) + places] + Encode(val, FIRST_BYTE_BITS_WITH_DECIMAL)
    else
      FirstByte(val, FIRST_BYTE_BITS);
      Tagged(Encode(val, FIRST_BYTE_BITS), Flags(negative, places))
  }

  /**
   * What the decoder reads: the sign from bit 5; with bit 4 set the places
   * from bits 0-3 and LEB128 from the next byte, counting the header byte;
   * otherwise `decode(·, 4)` from the first byte and no places; both on
   * `u64`.
   */
  function Read(input: seq<u8>): Option<Reading>
  {
    if |input| == 0 then None
    else
      var negative := Bit(input[0], 5);
      if Bit(input[0], 4) then
        match DecodeU64(input[1..], FIRST_BYTE_BITS_WITH_DECIMAL)
        case None => None
        case Some((v, n)) => Some(Reading(negative, v, input[0] % 16, 1 + n))
      else
        match DecodeU64(input, FIRST_BYTE_BITS)
        case None => None
        case Some((v, n)) => Some(Reading(negative, v, 0, n))
  }

  /**
   * `compress_decimal`: appends the token and answers true, or answers
   * false and appends nothing.  The source does not check
   * `decimal_places`; more than 15 would run into the decimal flag, so it
   * is required here.
   */
  method Compress(val: u64, negative: bool, decimalPlaces: u8, out0: seq<u8>)
    returns (ok: bool, out: seq<u8>)
    requires decimalPlaces <= 15
    ensures ok == Accepts(val, negative, decimalPlaces)
    ensures ok ==> out == out0 + Token(val, negative, decimalPlaces)
    ensures !ok ==> out == out0
  {
    if (!negative && decimalPlaces == 0) && val < 100 {
      return false, out0;
    }
    var sign := BitOr(if negative then NEGATIVE_FLAG else 0, NUMERICAL_HOLDER_FLAG, 6);
    var firstByteMsb := BitOr(if decimalPlaces > 0 then DECIMAL_FLAG else 0, sign, 5);
    out := out0;
    var encoded;
    if decimalPlaces > 0 {
      var header := BitOr(decimalPlaces, firstByteMsb, 4);
      out := out + [header];
      encoded := EncodeVle(val, FIRST_BYTE_BITS_WITH_DECIMAL);
    } else {
      encoded := EncodeVle(val, FIRST_BYTE_BITS);
      FirstByte(val, FIRST_BYTE_BITS);
      assert firstByteMsb == (12 + (if negative then 2 else 0)) * 16;
      encoded := SetTag(encoded, firstByteMsb, FIRST_BYTE_BITS);
    }
    out := out + encoded;
    ok := true;
  }

  /**
   * `decompress_decimal`: '-' when the sign bit is set, then the value with
   * its decimal places; returns the number of input bytes it took,
   * including the header byte.
   */
  method Decompress(input: seq<u8>, out0: seq<u8>) returns (out: seq<u8>, len: nat)
    requires Read(input).Some? && Read(input).value.value < Pow10(MAX_DIGITS)
    ensures len == Read(input).value.len
    ensures out == out0 + Text(Read(input).value)
  {
    ReadFields(input);
    ghost var r := Read(input).value;
    out := out0;
    if (input[0] / NEGATIVE_FLAG) % 2 == 1 {
      out := out + [MINUS];
    }
    ghost var sign := out;
    assert sign == out0 + (if r.negative then [MINUS] else []);
    var size := 0;
    var bitsCountOfFirstByte, decimalPlaces, rest;
    if (input[0] / DECIMAL_FLAG) % 2 == 1 {
      size := size + 1;
      bitsCountOfFirstByte, decimalPlaces, rest := FIRST_BYTE_BITS_WITH_DECIMAL, input[0] % 16, input[1..];
    } else {
      bitsCountOfFirstByte, decimalPlaces, rest := FIRST_BYTE_BITS, 0, input;
    }
    var value, n := DecodeVle(rest, bitsCountOfFirstByte);
    assert value == r.value && decimalPlaces == r.places && size + n == r.len;
    out := PushRendered(value, decimalPlaces, out);
    SignThenDigits(out0, sign, r);
    len := size + n;
  }

  /** What `Read` takes from each bit of the first byte. */
  lemma ReadFields(input: seq<u8>)
    requires Read(input).Some?
    ensures var b, r := input[0], Read(input).value;
      && r.negative == ((b / NEGATIVE_FLAG) % 2 == 1)
      && ((b / DECIMAL_FLAG) % 2 == 1 ==> r.places == b % 16 && DecodeU64(input[1..], 0) == Some((r.value, r.len - 1)))
      && ((b / DECIMAL_FLAG) % 2 != 1 ==> r.places == 0 && DecodeU64(input, 4) == Some((r.value, r.len)))
  {
    Pow2Small();
  }

  /**
   * The token starts with the marker bits 11, bit 5 of its first byte is
   * the sign and bit 4 says whether there are decimal places, and it reads
   * back as the signed value with its places, consuming exactly the token.
   */
  lemma {:induction false} TokenRoundTrip(val: u64, negative: bool, places: nat, rest: seq<u8>)
    requires places <= 15
    ensures Token(val, negative, places)[0] / 0x40 == 3
    ensures Bit(Token(val, negative, places)[0], 5) == negative
    ensures Bit(Token(val, negative, places)[0], 4) == (places > 0)
    ensures Read(Token(val, negative, places) + rest)
         == Some(Reading(negative, val, places, |Token(val, negative, places)|))
  {
    if places > 0 {
      DecimalTokenRoundTrip(val, negative, places, rest);
    } else {
      WholeTokenRoundTrip(val, negative, rest);
    }
  }

  /** `TokenRoundTrip` for a token with a header byte. */
  lemma DecimalTokenRoundTrip(val: u64, negative: bool, places: nat, rest: seq<u8>)
    requires 0 < places <= 15
    ensures Token(val, negative, places)[0] / 0x40 == 3
    ensures Bit(Token(val, negative, places)[0], 5) == negative
    ensures Bit(Token(val, negative, places)[0], 4)
    ensures Read(Token(val, negative, places) + rest)
         == Some(Reading(negative, val, places, |Token(val, negative, places)|))
  {
    var b := HeaderByte(negative, places);
    var e := Encode(val, 0);
    assert Token(val, negative, places) == [b] + e;
    assert [b] + e + rest == [b] + (e + rest);
    RoundTripU64(val, 0, rest);
    ReadHeader(b, e + rest);
  }

  /** Behind a header byte with the decimal flag, `Read` decodes LEB128. */
  lemma ReadHeader(b: u8, tail: seq<u8>)
    requires Bit(b, 4) && DecodeU64(tail, 0).Some?
    ensures Read([b] + tail)
         == Some(Reading(Bit(b, 5), DecodeU64(tail, 0).value.0, b % 16, 1 + DecodeU64(tail, 0).value.1))
  {
    assert ([b] + tail)[0] == b && ([b] + tail)[1..] == tail;
  }

  /** The header byte: marker, sign and decimal flag above the places. */
  lemma HeaderByte(negative: bool, places: nat) returns (b: u8)
    requires 0 < places <= 15
    ensures b == Flags(negative, places) + places
    ensures b / 0x40 == 3 && Bit(b, 5) == negative && Bit(b, 4) && b % 16 == places
  {
    Pow2Small();
    var s := if negative then 1 else 0;
    b := places + (12 + 2 * s + 1) * 16;
    HighBits(places, 12 + 2 * s + 1, 4);
    assert b == (places + 16) + (6 + s) * 32;
    HighBits(places + 16, 6 + s, 5);
  }

  /** `TokenRoundTrip` for a token whose tags share the VLE first byte. */
  lemma WholeTokenRoundTrip(val: u64, negative: bool, rest: seq<u8>)
    ensures Token(val, negative, 0)[0] / 0x40 == 3
    ensures Bit(Token(val, negative, 0)[0], 5) == negative
    ensures !Bit(Token(val, negative, 0)[0], 4)
    ensures Read(Token(val, negative, 0) + rest)
         == Some(Reading(negative, val, 0, |Token(val, negative, 0)|))
  {
    var b := WholeFirstByte(val, negative);
    FirstByte(val, 4);
    TaggedRoundTrip(val, 4, if negative then 14 else 12, rest);
    assert (Token(val, negative, 0) + rest)[0] == b;
  }

  /** The first byte of a whole token: the value's four low bits under the tags. */
  lemma WholeFirstByte(val: nat, negative: bool) returns (b: u8)
    ensures b == Token(val, negative, 0)[0]
    ensures Flags(negative, 0) == (if negative then 14 else 12) * Pow2(4)
    ensures b / 0x40 == 3 && Bit(b, 5) == negative && !Bit(b, 4)
  {
    Pow2Small();
    var s := if negative then 1 else 0;
    var e0 := Encode(val, 4)[0];
    FirstByte(val, 4);
    b := Token(val, negative, 0)[0];
    assert (12 + 2 * s) * 16 >= 0;
    assert b == e0 + (12 + 2 * s) * 16;
    HighBits(e0, 12 + 2 * s, 4);
    assert b == e0 + (6 + s) * 32;
    HighBits(e0, 6 + s, 5);
  }

  /** A token reads back as its reading, whose text is the sign and the rendered value. */
  lemma TokenText(x: u64, negative: bool, places: nat)
    requires places <= 15
    ensures Read(Token(x, negative, places)) == Some(Reading(negative, x, places, |Token(x, negative, places)|))
    ensures [] + Text(Read(Token(x, negative, places)).value)
         == (if negative then [MINUS] else []) + Rendered(x, places)
  {
    TokenRoundTrip(x, negative, places, []);
    assert Token(x, negative, places) + [] == Token(x, negative, places);
  }

  /** With one place and a sign: the sign, `x / 10`, the dot and the last digit. */
  lemma SignedOnePlace(x: nat, negative: bool)
    ensures (if negative then [MINUS] else []) + Rendered(x, 1)
         == (if negative then [MINUS] else []) + IntegerPart(x, 1) + [DOT] + [ZERO + x % 10]
  {
    var sign := if negative then [MINUS] else [];
    OnePlace(x);
    assert sign + IntegerPart(x, 1) + [DOT] == sign + (IntegerPart(x, 1) + [DOT]);
    assert sign + (IntegerPart(x, 1) + [DOT]) + [ZERO + x % 10] == sign + (IntegerPart(x, 1) + [DOT] + [ZERO + x % 10]);
  }

  /**
   * The source's tests: accepted positive and negative whole numbers come
   * back as their digits with a '-' for negatives, and a value with one
   * place as `x / 10` written with one decimal.
   */
  method CompressThenDecompress(x: u64, negative: bool, places: u8) returns (ok: bool, text: seq<u8>)
    requires x < Pow10(MAX_DIGITS) && places <= 15
    ensures ok == Accepts(x, negative, places)
    ensures ok ==> text == (if negative then [MINUS] else []) + Rendered(x, places)
    ensures ok && places == 1 ==> text == (if negative then [MINUS] else []) + IntegerPart(x, 1) + [DOT] + [ZERO + x % 10]
  {
    var compressed;
    ok, compressed := Compress(x, negative, places, []);
    text := [];
    if ok {
      assert compressed == Token(x, negative, places);
      TokenText(x, negative, places);
      var len;
      text, len := Decompress(compressed, []);
      if places == 1 {
        SignedOnePlace(x, negative);
      }
    }
  }
}
