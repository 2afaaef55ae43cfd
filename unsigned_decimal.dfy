/**
 * src/all_ascii/unsigned_decimal.rs: a non-negative decimal token.  With
 * decimal places the first byte is `encode(val, 1)`'s with 11 in bits 6-7,
 * the decimal flag in bit 5 and the place count in bits 1-4; without, it is
 * `encode(val, 4)`'s with only the marker, so bit 5 stays clear.
 */
module UnsignedDecimal {
  import opened Bytes
  import opened Vle
  import opened Digits
  import opened Numeric

  /** `BITS_COUNT_OF_FIRST_BYTE`. */
  const FIRST_BYTE_BITS: nat := 4
  /** `BITS_COUNT_OF_FIRST_BYTE_WITH_DECIMAL`. */
  const FIRST_BYTE_BITS_WITH_DECIMAL: nat := 1
  /** `DECIMAL_FLAG`. */
  const DECIMAL_FLAG: nat := 0x20

  /** Whole numbers below 100 are declined; anything with places is taken. */
  predicate Accepts(val: nat, places: nat)
  {
    !(places == 0 && val < 100)
  }

  /** The first-byte width and the tag for a number of decimal places. */
  function Width(places: nat): nat
  {
    if places > 0 then FIRST_BYTE_BITS_WITH_DECIMAL else FIRST_BYTE_BITS
  }

  function Tag(places: nat): nat
    requires places <= 15
  {
    if places > 0 then NUMERICAL_HOLDER_FLAG + DECIMAL_FLAG + 2 * places else NUMERICAL_HOLDER_FLAG
  }

  /** The bytes the encoder appends for an accepted value. */
  function Token(val: nat, places: nat): (t: seq<u8>)
    requires places <= 15
    ensures |t| == |Encode(val, Width(places))|
  {
    FirstByte(val, Width(places));
    Tagged(Encode(val, Width(places)), Tag(places))
  }

  /**
   * What the decoder reads: bit 5 selects a one-bit first byte with the
   * places in bits 1-4, otherwise a four-bit first byte and no places;
   * `decode` runs on `u64`.
   */
  function Read(input: seq<u8>): Option<Reading>
  {
    if |input| == 0 then None
    else
      var places := if Bit(input[0], 5) then (input[0] / 2) % 16 else 0;
      var width := if Bit(input[0], 5) then FIRST_BYTE_BITS_WITH_DECIMAL else FIRST_BYTE_BITS;
      match DecodeU64(input, width)
      case None => None
      case Some((v, n)) => Some(Reading(false, v, places, n))
  }

  /**
   * `compress_unsigned_decimal`: appends the token and answers true, or
   * answers false and appends nothing; the sign passed in plays no part.
   * The source does not check `decimal_places`; more than 15 would run into
   * the decimal flag, so it is required here.
   */
  method Compress(val: u64, negative: bool, decimalPlaces: u8, out0: seq<u8>)
    returns (ok: bool, out: seq<u8>)
    requires decimalPlaces <= 15
    ensures ok == Accepts(val, decimalPlaces)
    ensures ok ==> out == out0 + Token(val, decimalPlaces)
    ensures !ok ==> out == out0
  {
    if decimalPlaces == 0 && val < 100 {
      return false, out0;
    }
    var firstByteMsb, bitsCountOfFirstByte;
    if decimalPlaces > 0 {
      var flags := BitOr(DECIMAL_FLAG, NUMERICAL_HOLDER_FLAG, 6);
      firstByteMsb := BitOr(2 * decimalPlaces, flags, 5);
      bitsCountOfFirstByte := FIRST_BYTE_BITS_WITH_DECIMAL;
    } else {
      firstByteMsb, bitsCountOfFirstByte := NUMERICAL_HOLDER_FLAG, FIRST_BYTE_BITS;
    }
    var encoded := EncodeVle(val, bitsCountOfFirstByte);
    FirstByte(val, bitsCountOfFirstByte);
    assert firstByteMsb % Pow2(bitsCountOfFirstByte) == 0 by {
      TagIsMultiple(decimalPlaces);
    }
    encoded := SetTag(encoded, firstByteMsb, bitsCountOfFirstByte);
    out := out0 + encoded;
    ok := true;
  }

  lemma TagIsMultiple(places: nat)
    requires places <= 15
    ensures Tag(places) == Tag(places) / Pow2(Width(places)) * Pow2(Width(places))
    ensures Tag(places) % Pow2(Width(places)) == 0
  {
    if places > 0 {
      DivModUnique(Tag(places), 2, 0x70 + places, 0);
    } else {
      DivModUnique(Tag(places), 16, 12, 0);
    }
  }

  /**
   * `decompress_unsigned_decimal`: appends the value with its decimal
   * places and returns the number of input bytes it took.
   */
  method Decompress(input: seq<u8>, out0: seq<u8>) returns (out: seq<u8>, len: nat)
    requires Read(input).Some? && Read(input).value.value < Pow10(MAX_DIGITS)
    ensures len == Read(input).value.len
    ensures out == out0 + Text(Read(input).value)
  {
    ReadFields(input);
    var bitsCountOfFirstByte, decimalPlaces;
    if (input[0] / DECIMAL_FLAG) % 2 == 1 {
      bitsCountOfFirstByte, decimalPlaces := FIRST_BYTE_BITS_WITH_DECIMAL, (input[0] / 2) % 16;
    } else {
      bitsCountOfFirstByte, decimalPlaces := FIRST_BYTE_BITS, 0;
    }
    var value;
    value, len := DecodeVle(input, bitsCountOfFirstByte);
    out := PushRendered(value, decimalPlaces, out0);
    SignThenDigits(out0, out0, Read(input).value);
  }

  /** What `Read` takes from the input: bit 5, bits 1-4 and `decode`. */
  lemma ReadFields(input: seq<u8>)
    requires Read(input).Some?
    ensures var r := Read(input).value;
      var flag := (input[0] / DECIMAL_FLAG) % 2 == 1;
      && !r.negative
      && r.places == (if flag then (input[0] / 2) % 16 else 0)
      && DecodeU64(input, if flag then FIRST_BYTE_BITS_WITH_DECIMAL else FIRST_BYTE_BITS) == Some((r.value, r.len))
  {
    Pow2Small();
  }

  /**
   * The token starts with the marker bits 11, its bit 5 says whether there
   * are decimal places, bits 1-4 then hold them, and it reads back as the
   * value with those places, consuming exactly the token.
   */
  lemma TokenRoundTrip(val: u64, places: nat, rest: seq<u8>)
    requires places <= 15
    ensures Token(val, places)[0] / 0x40 == 3
    ensures Bit(Token(val, places)[0], 5) == (places > 0)
    ensures Read(Token(val, places) + rest) == Some(Reading(false, val, places, |Token(val, places)|))
  {
    var b := TokenFirstByte(val, places);
    TokenDecodes(val, places, rest);
    assert (Token(val, places) + rest)[0] == b;
  }

  /** The first byte: marker, decimal flag and places above the value's bits. */
  lemma TokenFirstByte(val: nat, places: nat) returns (b: u8)
    requires places <= 15
    ensures b == Token(val, places)[0]
    ensures b / 0x40 == 3 && Bit(b, 5) == (places > 0)
    ensures places > 0 ==> (b / 2) % 16 == places
  {
    Pow2Small();
    var w := Width(places);
    var e0 := Encode(val, w)[0];
    FirstByte(val, w);
    b := e0 + Tag(places);
    assert b == Token(val, places)[0];
    if places > 0 {
      assert b == (e0 + 2 * places) + 7 * 32;
      HighBits(e0 + 2 * places, 7, 5);
      assert b == e0 + (0x70 + places) * 2;
      HighBits(e0, 0x70 + places, 1);
      HighBits(places, 7, 4);
    } else {
      HighBits(e0, 6, 5);
    }
  }

  /** The tag above the first byte's value bits leaves `decode` reading the value. */
  lemma TokenDecodes(val: u64, places: nat, rest: seq<u8>)
    requires places <= 15
    ensures DecodeU64(Token(val, places) + rest, Width(places)) == Some((val, |Token(val, places)|))
  {
    var w := Width(places);
    FirstByte(val, w);
    TagIsMultiple(places);
    TaggedRoundTrip(val, w, Tag(places) / Pow2(w), rest);
  }

  /** A token reads back as its reading, whose text is the rendered value. */
  lemma TokenText(x: u64, places: nat)
    requires places <= 15
    ensures Read(Token(x, places)) == Some(Reading(false, x, places, |Token(x, places)|))
    ensures [] + Text(Read(Token(x, places)).value) == Rendered(x, places)
  {
    TokenRoundTrip(x, places, []);
    assert Token(x, places) + [] == Token(x, places);
  }

  /**
   * The source's tests: an accepted whole number comes back as its digits,
   * and a value with one place as `x / 10` written with one decimal.
   */
  method CompressThenDecompress(x: u64, places: u8) returns (ok: bool, text: seq<u8>)
    requires x < Pow10(MAX_DIGITS) && places <= 15
    ensures ok == Accepts(x, places)
    ensures ok ==> text == Rendered(x, places)
    ensures ok && places == 1 ==> text == IntegerPart(x, 1) + [DOT] + [ZERO + x % 10]
  {
    var compressed;
    ok, compressed := Compress(x, false, places, []);
    text := [];
    if ok {
      assert compressed == Token(x, places);
      TokenText(x, places);
      var len;
      text, len := Decompress(compressed, []);
      if places == 1 {
        OnePlace(x);
      }
    }
  }
}
