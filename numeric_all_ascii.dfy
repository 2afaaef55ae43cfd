/**
 * src/zsan/numeric_all_ascii.rs: the older numeric codec.
 *
 * The first byte carries 0x80 and, depending on the path, the sign bit
 * 0x20, the decimal flag 0x10 with the number of decimal places in its low
 * four bits, or three value bits with the continuation flag 0x08.  The
 * rest of the value follows in LEB128 groups.  The decoder is given the
 * value and the first byte, and it renders the sign and digits into a
 * 22-byte buffer of '0's.
 */
module NumericAllAscii {
  import opened Bytes
  import opened Digits
  import Vle

  const NUM_COUNT_FLAG: nat := 0x80
  const NEGATIVE_FLAG: nat := 0x20
  const DECIMAL_FLAG: nat := 0x10
  /** `DECIMAL_BYTE_MAX_VALUE`: four bits of decimal places. */
  const DECIMAL_BYTE_MAX_VALUE: nat := 15
  const FIRST_BYTE_CONTINUANCE_FLAG: nat := 0x08
  /** `FIRST_BYTE_MAX_VALUE`: three value bits in the first byte. */
  const FIRST_BYTE_MAX_VALUE: nat := 7
  /** The decoder's `BUFFER_SIZE`. */
  const BUFFER_SIZE: nat := 22

  datatype Sign = Positive | Negative

  /** `sign as u8`. */
  function SignBits(sign: Sign): nat
  {
    if sign.Negative? then NEGATIVE_FLAG else 0
  }

  /** `msb`: the flag, the sign and, with decimal places, the decimal flag. */
  function Msb(decimalCnt: nat, sign: Sign): nat
  {
    NUM_COUNT_FLAG + SignBits(sign) + (if decimalCnt > 0 then DECIMAL_FLAG else 0)
  }

  // ---------------------------------------------------------------------
  // Specification
  // ---------------------------------------------------------------------

  /**
   * `should_compress`.  Its first test, `10 <= val <= 7`, can never hold,
   * so only `val > 100` decides.
   */
  function ShouldCompress(val: u64): (r: bool)
    ensures r <==> val > 100
  {
    if 10 <= val <= FIRST_BYTE_MAX_VALUE then true else val > 100
  }

  /**
   * The bytes `compress_numeric_in_all_ascii` appends, as written.  An
   * integer below 8 is the single byte `v | 0x80`, which carries no sign.
   */
  function Code(value: nat, decimalCnt: nat, sign: Sign): seq<u8>
    requires decimalCnt <= DECIMAL_BYTE_MAX_VALUE
  {
    if decimalCnt == 0 then
      if value / 8 == 0 then [value % 8 + NUM_COUNT_FLAG]
      else [value % 8 + Msb(0, sign) + FIRST_BYTE_CONTINUANCE_FLAG] + Vle.Leb(value / 8)
    else [decimalCnt + Msb(decimalCnt, sign)] + Vle.Leb(value)
  }

  /** The evidently intended bytes: a small integer keeps the sign bit too. */
  function CodeIntended(value: nat, decimalCnt: nat, sign: Sign): seq<u8>
    requires decimalCnt <= DECIMAL_BYTE_MAX_VALUE
  {
    if decimalCnt == 0 && value / 8 == 0 then [value % 8 + Msb(0, sign)]
    else Code(value, decimalCnt, sign)
  }

  /**
   * The value the layout stores: with the decimal flag, the LEB128 groups
   * after the first byte; otherwise three bits of the first byte and, when
   * its flag 0x08 is set, the groups after it.  The source has no decoder
   * for this layout: `decode_all_ascii` looks at one byte at a time and
   * copies a byte whose top bits are 10, as this first byte's are, to the
   * output unchanged.  This is the reading the encoder's layout implies.
   */
  function Value(s: seq<u8>): Option<nat>
  {
    if |s| == 0 then None
    else if Bit(s[0], 4) then
      match Vle.LebDecode(s[1..])
      case None => None
      case Some((v, _)) => Some(v)
    else if Bit(s[0], 3) then
      match Vle.LebDecode(s[1..])
      case None => None
      case Some((v, _)) => Some(s[0] % 8 + 8 * v)
    else Some(s[0] % 8)
  }

  /** The decimal places a first byte announces (`decimal_len`). */
  function Places(firstByte: u8): nat
  {
    if Bit(firstByte, 4) then firstByte % 16 else 0
  }

  /**
   * What `decompress_numeric_in_all_ascii` appends: '-' when the sign bit
   * is set, then the value with the announced decimal places.
   */
  function Text(value: nat, firstByte: u8): seq<u8>
  {
    (if Bit(firstByte, 5) then [MINUS] else []) + Rendered(value, Places(firstByte))
  }

  // ---------------------------------------------------------------------
  // The source's functions
  // ---------------------------------------------------------------------

  /**
   * `compress_numeric_in_all_ascii` as written.  It panics when there are
   * more than 15 decimal places, which the precondition rules out.
   */
  method Compress(value0: u64, decimalCnt: nat, sign: Sign, out0: seq<u8>) returns (out: seq<u8>)
    requires decimalCnt <= DECIMAL_BYTE_MAX_VALUE
    ensures out == out0 + Code(value0, decimalCnt, sign)
  {
    var msb := Msb(decimalCnt, sign);
    var value: nat := value0;
    out := out0;
    var b: u8;
    if decimalCnt == 0 {
      var firstByte := value % 8;
      value := value / 8;
      if value == 0 {
        b := SmallFirstByte(firstByte, NUM_COUNT_FLAG);
        out := out + [b];
        assert Code(value0, decimalCnt, sign) == [b];
        return;
      }
      b := FlaggedFirstByte(firstByte, msb);
    } else {
      b := DecimalFirstByte(decimalCnt, msb);
    }
    assert Code(value0, decimalCnt, sign) == [b] + Vle.Leb(value);
    out := out + [b];
    out := Vle.PushGroups(value, out);
    assert out0 + [b] + Vle.Leb(value) == out0 + ([b] + Vle.Leb(value));
  }

  /** `compress_numeric_in_all_ascii` with `msb` on the single-byte path too. */
  method CompressIntended(value0: u64, decimalCnt: nat, sign: Sign, out0: seq<u8>) returns (out: seq<u8>)
    requires decimalCnt <= DECIMAL_BYTE_MAX_VALUE
    ensures out == out0 + CodeIntended(value0, decimalCnt, sign)
  {
    if decimalCnt == 0 && value0 / 8 == 0 {
      var b := SmallFirstByte(value0 % 8, Msb(decimalCnt, sign));
      out := out0 + [b];
    } else {
      out := Compress(value0, decimalCnt, sign, out0);
    }
  }

  /** `first_byte | high`: three value bits under the flag bits. */
  method SmallFirstByte(firstByte: nat, high: nat) returns (b: u8)
    requires firstByte < 8 && (high == NUM_COUNT_FLAG || high == NUM_COUNT_FLAG + NEGATIVE_FLAG)
    ensures b == firstByte + high
  {
    Pow2Small();
    b := BitOr(firstByte, high, 3);
  }

  /**
   * `first_byte | msb | FIRST_BYTE_CONTINUANCE_FLAG`: the three value bits,
   * the flag and sign above them, and the continuation flag in bit 3,
   * which none of the others occupies.
   */
  method FlaggedFirstByte(firstByte: nat, msb: nat) returns (b: u8)
    requires firstByte < 8 && (msb == NUM_COUNT_FLAG || msb == NUM_COUNT_FLAG + NEGATIVE_FLAG)
    ensures b == firstByte + msb + FIRST_BYTE_CONTINUANCE_FLAG
  {
    var low := BitOr(firstByte, msb, 3);
    OrPow2(low, 3);
    DivModUnique(low, 8, msb / 8, firstByte);
    b := Or(low, FIRST_BYTE_CONTINUANCE_FLAG);
  }

  /**
   * `decimal_cnt | msb | DECIMAL_FLAG`: the places in bits 0..3; `msb`
   * already holds the decimal flag, so ORing it again changes nothing.
   */
  method DecimalFirstByte(decimalCnt: nat, msb: nat) returns (b: u8)
    requires 1 <= decimalCnt <= DECIMAL_BYTE_MAX_VALUE
    requires msb == NUM_COUNT_FLAG + DECIMAL_FLAG || msb == NUM_COUNT_FLAG + NEGATIVE_FLAG + DECIMAL_FLAG
    ensures b == decimalCnt + msb
  {
    var low := BitOr(decimalCnt, msb, 4);
    OrPow2(low, 4);
    DivModUnique(low, 16, msb / 16, decimalCnt);
    b := Or(low, DECIMAL_FLAG);
  }

  /**
   * The decoder's digit loop: writes the digits of `value0` right to left,
   * moving `start_index` down before each write, and returns where the
   * digits begin.  A 64-bit value has at most 20 digits, so the index
   * never goes below zero.
   */
  method FillBuffer(buffer: array<u8>, value0: u64) returns (startIndex: nat)
    requires buffer.Length == BUFFER_SIZE
    modifies buffer
    ensures startIndex <= BUFFER_SIZE
    ensures buffer[startIndex..] == DecimalDigits(value0)
    ensures forall i :: 0 <= i < startIndex ==> buffer[i] == old(buffer[i])
  {
    var value: nat := value0;
    startIndex := BUFFER_SIZE;
    BufferFits(value0, startIndex);
    assert buffer[startIndex..] == [];
    while value > 0
      invariant startIndex <= BUFFER_SIZE && value < Pow10(startIndex)
      invariant DecimalDigits(value) + buffer[startIndex..] == DecimalDigits(value0)
      invariant forall i :: 0 <= i < startIndex ==> buffer[i] == old(buffer[i])
      decreases value
    {
      PlaceLastDigit(buffer, value, startIndex);
      startIndex := startIndex - 1;
      value := value / 10;
    }
  }

  /** Every 64-bit value has fewer digits than the buffer has bytes. */
  lemma BufferFits(v: u64, k: nat)
    requires k == BUFFER_SIZE
    ensures v < Pow10(k)
  {
    Pow10Values();
    assert Pow10(k) == 100 * Pow10(MAX_LEN);
  }

  /**
   * `decompress_numeric_in_all_ascii`: '-' when the sign bit is set, then
   * the value with the decimal places the first byte announces.
   */
  method Decompress(value: u64, firstByte: u8, out0: seq<u8>) returns (out: seq<u8>)
    ensures out == out0 + Text(value, firstByte)
  {
    out := out0;
    if Bit(firstByte, 5) {
      out := out + [MINUS];
    }
    ghost var sign := out;
    var decimalLen := if Bit(firstByte, 4) then firstByte % 16 else 0;
    out := PushBuffer(value, decimalLen, out);
    SignThenRendered(out0, sign, value, firstByte);
  }

  /** The decoder's output: the sign pushed first, then the rendered value. */
  lemma SignThenRendered(out0: seq<u8>, sign: seq<u8>, value: nat, firstByte: u8)
    requires sign == out0 + (if Bit(firstByte, 5) then [MINUS] else [])
    ensures sign + Rendered(value, Places(firstByte)) == out0 + Text(value, firstByte)
  {
    var minus := if Bit(firstByte, 5) then [MINUS] else [];
    var digits := Rendered(value, Places(firstByte));
    assert Text(value, firstByte) == minus + digits;
    assert out0 + minus + digits == out0 + (minus + digits);
  }

  /**
   * The decoder's rendering step: either every digit of the buffer or,
   * with decimal places, the integer window (at least one digit), a '.',
   * and the last `decimal_len` bytes of the buffer.
   */
  method PushBuffer(value: u64, decimalLen: nat, out0: seq<u8>) returns (out: seq<u8>)
    requires decimalLen < 16
    ensures out == out0 + Rendered(value, decimalLen)
  {
    var buffer := new u8[BUFFER_SIZE](_ => ZERO);
    assert forall i :: 0 <= i < BUFFER_SIZE ==> buffer[i] == ZERO;
    var startIndex := FillBuffer(buffer, value);
    if decimalLen == 0 {
      out := out0 + buffer[startIndex..];
    } else {
      var decimalStart := BUFFER_SIZE - decimalLen;
      var integerStart := if startIndex < decimalStart - 1 then startIndex else decimalStart - 1;
      FilledBuffer(buffer, startIndex, DecimalDigits(value));
      BufferWindow(buffer[..], BUFFER_SIZE, value, decimalLen, integerStart, decimalStart);
      out := PushWindows(buffer, integerStart, decimalStart, out0);
    }
  }

  // ---------------------------------------------------------------------
  // Properties
  // ---------------------------------------------------------------------

  /**
   * The first byte as written: flag 0x80 always; on the decimal path the
   * decimal flag and the places; on the integer path from 8 up the
   * continuation flag; and the sign bit exactly when the value is negative
   * and not a single-byte integer.
   */
  lemma FirstByte(value: nat, decimalCnt: nat, sign: Sign)
    requires decimalCnt <= DECIMAL_BYTE_MAX_VALUE
    ensures Bit(Code(value, decimalCnt, sign)[0], 7)
    ensures Places(Code(value, decimalCnt, sign)[0]) == decimalCnt
    ensures Bit(Code(value, decimalCnt, sign)[0], 5) <==> sign.Negative? && (decimalCnt > 0 || value >= 8)
  {
    if decimalCnt > 0 {
      var b := DecimalCode(value, decimalCnt, sign);
      assert Code(value, decimalCnt, sign)[0] == b;
    } else if value / 8 == 0 {
      HeaderBits(value % 8 + NUM_COUNT_FLAG, 8, value % 8);
    } else {
      var b := LongCode(value, sign);
      assert Code(value, decimalCnt, sign)[0] == b;
    }
  }

  /** The same first byte with the single-byte path corrected. */
  lemma FirstByteIntended(value: nat, decimalCnt: nat, sign: Sign)
    requires decimalCnt <= DECIMAL_BYTE_MAX_VALUE
    ensures Places(CodeIntended(value, decimalCnt, sign)[0]) == decimalCnt
    ensures Bit(CodeIntended(value, decimalCnt, sign)[0], 5) <==> sign.Negative?
  {
    if decimalCnt == 0 && value / 8 == 0 {
      var b := CodeIntended(value, decimalCnt, sign)[0];
      HeaderBits(b, 8 + 2 * (SignBits(sign) / 0x20), value % 8);
    } else {
      FirstByte(value, decimalCnt, sign);
    }
  }

  /**
   * The bits of a first byte `top * 16 + low` whose top nibble holds the
   * flag 0x80: the sign and decimal flags come from `top`, the
   * continuation flag and the value bits from `low`.
   */
  lemma HeaderBits(b: nat, top: nat, low: nat)
    requires 8 <= top < 16 && low < 16 && b == top * 16 + low
    ensures Bit(b, 7)
    ensures (Bit(b, 5) <==> (top / 2) % 2 == 1) && (Bit(b, 4) <==> top % 2 == 1)
    ensures Bit(b, 3) <==> low >= 8
    ensures b % 16 == low && b % 8 == (if low >= 8 then low - 8 else low)
  {
    Pow2Small();
    DivModUnique(b, 16, top, low);
    DivModUnique(b, 32, top / 2, (top % 2) * 16 + low);
    DivModUnique(b, 128, 1, b - 128);
    if low >= 8 {
      DivModUnique(b, 8, 2 * top + 1, low - 8);
    } else {
      DivModUnique(b, 8, 2 * top, low);
    }
  }

  /** The layout stores the value: reading it back gives `value`. */
  lemma ValueRoundTrip(value: nat, decimalCnt: nat, sign: Sign)
    requires decimalCnt <= DECIMAL_BYTE_MAX_VALUE
    ensures Value(Code(value, decimalCnt, sign)) == Some(value)
    ensures Value(CodeIntended(value, decimalCnt, sign)) == Some(value)
  {
    if decimalCnt > 0 {
      DecimalValue(value, decimalCnt, sign);
    } else if value / 8 == 0 {
      SmallValue(value, 0);
      SmallValue(value, SignBits(sign) / 0x20);
    } else {
      LongValue(value, sign);
    }
  }

  lemma DecimalValue(value: nat, decimalCnt: nat, sign: Sign)
    requires 1 <= decimalCnt <= DECIMAL_BYTE_MAX_VALUE
    ensures Value(Code(value, decimalCnt, sign)) == Some(value)
  {
    var b := DecimalCode(value, decimalCnt, sign);
    LebDecodes(value);
    ReadHeader(b, Vle.Leb(value));
  }

  /** The first byte of the decimal path, and what its bits say. */
  lemma DecimalCode(value: nat, decimalCnt: nat, sign: Sign) returns (b: u8)
    requires 1 <= decimalCnt <= DECIMAL_BYTE_MAX_VALUE
    ensures Code(value, decimalCnt, sign) == [b] + Vle.Leb(value)
    ensures Bit(b, 7) && Bit(b, 4) && b % 16 == decimalCnt && (Bit(b, 5) <==> sign.Negative?)
  {
    b := decimalCnt + Msb(decimalCnt, sign);
    HeaderBits(b, 8 + 2 * (SignBits(sign) / 0x20) + 1, decimalCnt);
  }

  /** A single first byte with bits 3 and 4 clear holds the value in bits 0..2. */
  lemma SmallValue(value: nat, s: nat)
    requires value < 8 && s <= 1
    ensures Value([value + NUM_COUNT_FLAG + 0x20 * s]) == Some(value)
  {
    HeaderBits(value + NUM_COUNT_FLAG + 0x20 * s, 8 + 2 * s, value);
  }

  lemma LongValue(value: nat, sign: Sign)
    requires value >= 8
    ensures Value(Code(value, 0, sign)) == Some(value)
  {
    var q := value / 8;
    var b := LongCode(value, sign);
    LebDecodes(q);
    ReadHeader(b, Vle.Leb(q));
    DivMod(value, 8);
  }

  /** The first byte of the long integer path, and what its bits say. */
  lemma LongCode(value: nat, sign: Sign) returns (b: u8)
    requires value >= 8
    ensures Code(value, 0, sign) == [b] + Vle.Leb(value / 8)
    ensures Bit(b, 7) && !Bit(b, 4) && Bit(b, 3) && b % 8 == value % 8
    ensures Bit(b, 5) <==> sign.Negative?
  {
    b := value % 8 + Msb(0, sign) + FIRST_BYTE_CONTINUANCE_FLAG;
    HeaderBits(b, 8 + 2 * (SignBits(sign) / 0x20), value % 8 + 8);
  }

  /** LEB128 groups with nothing after them decode to their value. */
  lemma LebDecodes(q: nat)
    ensures Vle.LebDecode(Vle.Leb(q)).Some? && Vle.LebDecode(Vle.Leb(q)).value.0 == q
  {
    Vle.LebRoundTrip(q, []);
    assert Vle.Leb(q) + [] == Vle.Leb(q);
  }

  /** What `Value` reads from a first byte followed by LEB128 groups. */
  lemma ReadHeader(b: u8, tail: seq<u8>)
    requires Vle.LebDecode(tail).Some?
    ensures Bit(b, 4) ==> Value([b] + tail) == Some(Vle.LebDecode(tail).value.0)
    ensures !Bit(b, 4) && Bit(b, 3) ==> Value([b] + tail) == Some(b % 8 + 8 * Vle.LebDecode(tail).value.0)
  {
    assert ([b] + tail)[0] == b && ([b] + tail)[1..] == tail;
  }

  /**
   * Decompressing what the corrected encoder wrote, given the stored value
   * and the first byte, renders the sign and the value with its places.
   */
  lemma IntendedRoundTrip(value: nat, decimalCnt: nat, sign: Sign)
    requires decimalCnt <= DECIMAL_BYTE_MAX_VALUE
    ensures Text(value, CodeIntended(value, decimalCnt, sign)[0])
      == (if sign.Negative? then [MINUS] else []) + Rendered(value, decimalCnt)
  {
    FirstByteIntended(value, decimalCnt, sign);
  }

  /**
   * As written, a negative integer below 8 comes back without its '-':
   * -5 is stored as 0x85 and renders as "5".
   */
  lemma SmallNegativeLosesSign()
    ensures Code(5, 0, Negative) == [0x85]
    ensures Value(Code(5, 0, Negative)) == Some(5)
    ensures Text(5, Code(5, 0, Negative)[0]) == [ZERO + 5]
    ensures CodeIntended(5, 0, Negative) == [0xA5]
    ensures Text(5, CodeIntended(5, 0, Negative)[0]) == [MINUS, ZERO + 5]
  {
    FirstByte(5, 0, Negative);
    FirstByteIntended(5, 0, Negative);
    ValueRoundTrip(5, 0, Negative);
    assert DecimalDigits(5) == DecimalDigits(0) + [ZERO + 5];
  }

  /** The source's vector for the encoder: 25810 is 0x8A then two LEB128 groups. */
  lemma CompressVector()
    ensures Code(0x64D2, 0, Positive) == [0x8A, 0x9A, 0x19]
  {
    assert 0x64D2 / 8 == 3226 && 0x64D2 % 8 == 2;
    assert Vle.Leb(3226) == [0x9A, 0x19];
  }

  /** The source's vector for the decoder without flags: 123. */
  lemma UnsignedVector()
    ensures Text(123, 0x00) == [ZERO + 1, ZERO + 2, ZERO + 3]
  {
    VectorFlags();
    Digits123();
  }

  /** The source's vector for the decoder with the sign bit: -123. */
  lemma NegativeVector()
    ensures Text(123, 0x20) == [MINUS, ZERO + 1, ZERO + 2, ZERO + 3]
  {
    VectorFlags();
    Digits123();
  }

  /** The source's vector for the decoder with one decimal place: -12.3. */
  lemma DecimalVector()
    ensures Text(123, 0x31) == [MINUS, ZERO + 1, ZERO + 2, DOT, ZERO + 3]
  {
    VectorFlags();
    Digits.Vectors();
  }

  lemma Digits123()
    ensures DecimalDigits(123) == [ZERO + 1, ZERO + 2, ZERO + 3]
  {
    assert DecimalDigits(12) == [ZERO + 1, ZERO + 2];
  }

  /** The flag bits of the three first bytes the decoder vectors use. */
  lemma VectorFlags()
    ensures !Bit(0x00, 5) && !Bit(0x00, 4)
    ensures Bit(0x20, 5) && !Bit(0x20, 4)
    ensures Bit(0x31, 5) && Bit(0x31, 4) && Places(0x31) == 1
  {
    Pow2Small();
  }
}
