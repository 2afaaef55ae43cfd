/**
 * src/all_ascii/integer.rs: a signed integer token is `encode(val, 5)`
 * with the numeric marker 11 in bits 6-7 of its first byte and the sign in
 * bit 5; the decoder writes '-' for a set sign bit, then the digits.
 */
module Integer {
  import opened Bytes
  import opened Vle
  import opened Digits
  import opened Numeric

  /** `BITS_COUNT_OF_FIRST_BYTE`. */
  const FIRST_BYTE_BITS: nat := 5
  /** `NEGATIVE_FLAG`. */
  const NEGATIVE_FLAG: nat := 0x20

  /** Negative values are always encoded; others as for unsigned integers. */
  predicate Accepts(val: nat, negative: bool)
  {
    negative || !(val < 10 || (31 < val && val < 100))
  }

  function SignTag(negative: bool): nat
  {
    NUMERICAL_HOLDER_FLAG + (if negative then NEGATIVE_FLAG else 0)
  }

  /** The bytes the encoder appends for an accepted value. */
  function Token(val: nat, negative: bool): (t: seq<u8>)
    ensures |t| == |Encode(val, 5)|
  {
    FirstByte(val, 5);
    Tagged(Encode(val, 5), SignTag(negative))
  }

  /** What the decoder reads: the sign from bit 5, then `decode(·, 5)` on `u64`. */
  function Read(input: seq<u8>): Option<Reading>
  {
    if |input| == 0 then None
    else match DecodeU64(input, 5)
      case None => None
      case Some((v, n)) => Some(Reading(Bit(input[0], 5), v, 0, n))
  }

  /**
   * `compress_integer`: appends the token and answers true, or answers
   * false and appends nothing; the decimal places passed in play no part.
   */
  method Compress(val: u64, negative: bool, decimalPlaces: u8, out0: seq<u8>)
    returns (ok: bool, out: seq<u8>)
    ensures ok == Accepts(val, negative)
    ensures ok ==> out == out0 + Token(val, negative)
    ensures !ok ==> out == out0
  {
    if !negative && (val < 10 || (val > 31 && val < 100)) {
      return false, out0;
    }
    var encoded := EncodeVle(val, FIRST_BYTE_BITS);
    FirstByte(val, 5);
    var tag := BitOr(if negative then NEGATIVE_FLAG else 0, NUMERICAL_HOLDER_FLAG, 6);
    encoded := SetTag(encoded, tag, 5);
    out := out0 + encoded;
    ok := true;
  }

  /**
   * `decompress_integer`: '-' when the sign bit is set, then the digits of
   * the value; returns the number of input bytes it took.
   */
  method Decompress(input: seq<u8>, out0: seq<u8>) returns (out: seq<u8>, len: nat)
    requires Read(input).Some? && Read(input).value.value < Pow10(MAX_DIGITS)
    ensures len == Read(input).value.len
    ensures out == out0 + Text(Read(input).value)
  {
    ReadFields(input);
    ghost var r := Read(input).value;
    out := out0;
    if (input[0] / NEGATIVE_FLAG) % 2 == 1 {
      out := out + [MINUS];
    }
    ghost var sign := out;
    assert sign == out0 + (if r.negative then [MINUS] else []);
    var value;
    value, len := DecodeVle(input, FIRST_BYTE_BITS);
    out := PushDigits(value, out);
    SignThenDigits(out0, sign, r);
  }

  /** What `Read` takes from the input: the sign bit and `decode(·, 5)` on `u64`. */
  lemma ReadFields(input: seq<u8>)
    requires Read(input).Some?
    ensures var r := Read(input).value;
      && r.negative == ((input[0] / NEGATIVE_FLAG) % 2 == 1)
      && DecodeU64(input, 5) == Some((r.value, r.len)) && r.places == 0
  {
    Pow2Small();
  }

  /**
   * The token starts with the marker bits 11, its bit 5 is the sign, and
   * it reads back as the signed value, consuming exactly the token: the tag
   * bits never reach the five bits `encode(·, 5)` gives the value.
   */
  lemma TokenRoundTrip(val: u64, negative: bool, rest: seq<u8>)
    ensures Token(val, negative)[0] / 0x40 == 3
    ensures Bit(Token(val, negative)[0], 5) == negative
    ensures Read(Token(val, negative) + rest) == Some(Reading(negative, val, 0, |Token(val, negative)|))
  {
    var b := TokenFirstByte(val, negative);
    TokenDecodes(val, negative, rest);
    assert (Token(val, negative) + rest)[0] == b;
  }

  /** The first byte: the value's five low bits under the marker and sign. */
  lemma TokenFirstByte(val: nat, negative: bool) returns (b: u8)
    ensures b == Token(val, negative)[0]
    ensures b / 0x40 == 3 && Bit(b, 5) == negative
  {
    Pow2Small();
    var t := if negative then 7 else 6;
    var e0 := Encode(val, 5)[0];
    FirstByte(val, 5);
    b := e0 + t * 32;
    assert b == Token(val, negative)[0];
    HighBits(e0, t, 5);
  }

  /** The tags above bit 5 leave `decode(·, 5)` reading the value. */
  lemma TokenDecodes(val: u64, negative: bool, rest: seq<u8>)
    ensures DecodeU64(Token(val, negative) + rest, 5) == Some((val, |Token(val, negative)|))
  {
    Pow2Small();
    var t := if negative then 7 else 6;
    FirstByte(val, 5);
    assert SignTag(negative) == t * Pow2(5);
    TaggedRoundTrip(val, 5, t, rest);
  }

  /** A token reads back as its reading, whose text is the sign and the digits. */
  lemma TokenText(x: u64, negative: bool)
    ensures Read(Token(x, negative)) == Some(Reading(negative, x, 0, |Token(x, negative)|))
    ensures [] + Text(Read(Token(x, negative)).value) == (if negative then [MINUS] else []) + DecimalDigits(x)
  {
    TokenRoundTrip(x, negative, []);
    assert Token(x, negative) + [] == Token(x, negative);
  }

  /**
   * The source's tests: an accepted positive value comes back as its
   * digits, a negative one as '-' and its digits.
   */
  method CompressThenDecompress(x: u64, negative: bool) returns (ok: bool, text: seq<u8>)
    requires x < Pow10(MAX_DIGITS)
    ensures ok == Accepts(x, negative)
    ensures ok ==> text == (if negative then [MINUS] else []) + DecimalDigits(x)
  {
    var compressed;
    ok, compressed := Compress(x, negative, 0, []);
    text := [];
    if ok {
      assert compressed == Token(x, negative);
      TokenText(x, negative);
      var len;
      text, len := Decompress(compressed, []);
    }
  }
}
