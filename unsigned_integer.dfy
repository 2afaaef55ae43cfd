/**
 * src/all_ascii/unsigned_integer.rs: a non-negative integer token is
 * `encode_6(val)` with the numeric marker 11 ORed into bits 6-7 of its
 * first byte; the decoder renders the value's decimal digits.
 */
module UnsignedInteger {
  import opened Bytes
  import opened Vle
  import opened VleFixed
  import opened Digits
  import opened Numeric

  /** The encoder declines values below 10 and values 32..99. */
  predicate Accepts(val: nat)
  {
    !(val < 10 || (31 < val && val < 100))
  }

  /** The bytes the encoder appends for an accepted value. */
  function Token(val: nat): (t: seq<u8>)
    ensures |t| == |Encode(val, 6)|
  {
    FirstByte(val, 6);
    Tagged(Encode(val, 6), NUMERICAL_HOLDER_FLAG)
  }

  /** What the decoder reads: `decode_6` of the input on `u64`, unsigned, no places. */
  function Read(input: seq<u8>): Option<Reading>
  {
    match DecodeU64(input, 6)
    case None => None
    case Some((v, n)) => Some(Reading(false, v, 0, n))
  }

  /**
   * `compress_unsigned_integer`: appends the token and answers true, or
   * answers false and appends nothing; the sign and the decimal places
   * passed in play no part.
   */
  method Compress(val: u64, negative: bool, decimalPlaces: u8, out0: seq<u8>)
    returns (ok: bool, out: seq<u8>)
    ensures ok == Accepts(val)
    ensures ok ==> out == out0 + Token(val)
    ensures !ok ==> out == out0
  {
    if val < 10 || (val > 31 && val < 100) {
      return false, out0;
    }
    var encoded := Encode6(val);
    FirstByte(val, 6);
    encoded := SetTag(encoded, NUMERICAL_HOLDER_FLAG, 6);
    out := out0 + encoded;
    ok := true;
  }

  /**
   * `decompress_unsigned_integer`: appends the digits of the value read and
   * returns the number of input bytes it took.
   */
  method Decompress(input: seq<u8>, out0: seq<u8>) returns (out: seq<u8>, len: nat)
    requires Read(input).Some? && Read(input).value.value < Pow10(MAX_DIGITS)
    ensures len == Read(input).value.len
    ensures out == out0 + Text(Read(input).value)
  {
    var value;
    value, len := Decode6(input);
    out := PushDigits(value, out0);
  }

  /**
   * The token starts with the marker bits 11 and reads back as the value,
   * unsigned, with no decimal places, consuming exactly the token.
   */
  lemma {:induction false} TokenRoundTrip(val: u64, rest: seq<u8>)
    ensures Token(val)[0] / 0x40 == 3
    ensures Read(Token(val) + rest) == Some(Reading(false, val, 0, |Token(val)|))
  {
    FirstByte(val, 6);
    HighBits(Encode(val, 6)[0], 3, 6);
    TaggedRoundTrip(val, 6, 3, rest);
  }

  /** A token reads back as its reading, whose text is the value's digits. */
  lemma TokenText(x: u64)
    ensures Read(Token(x)) == Some(Reading(false, x, 0, |Token(x)|))
    ensures [] + Text(Read(Token(x)).value) == DecimalDigits(x)
  {
    TokenRoundTrip(x, []);
    assert Token(x) + [] == Token(x);
  }

  /** The source's test: every accepted value comes back as its digits. */
  method CompressThenDecompress(x: u64) returns (ok: bool, text: seq<u8>)
    requires x < Pow10(MAX_DIGITS)
    ensures ok == Accepts(x)
    ensures ok ==> text == DecimalDigits(x)
  {
    var compressed;
    ok, compressed := Compress(x, false, 0, []);
    text := [];
    if ok {
      assert compressed == Token(x);
      TokenText(x);
      var len;
      text, len := Decompress(compressed, []);
    }
  }
}
