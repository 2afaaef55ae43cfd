/**
 * Decimal rendering shared by the four numeric decoders of src/all_ascii/:
 * the digits of a value are written right to left into a 20-byte buffer,
 * and the decimal decoders then cut the buffer around a '.' so that at least
 * one integer digit and exactly `dp` fraction digits appear.
 */
module Digits {
  import opened Bytes

  const ZERO: u8 := 0x30
  const DOT: u8 := 0x2E
  const MINUS: u8 := 0x2D

  /** The length of the digit buffers (`MAX_LEN`). */
  const MAX_LEN: nat := 20
  /** The most digits the loop writes: it stops before `buf[0]`. */
  const MAX_DIGITS: nat := MAX_LEN - 1

  function Pow10(k: nat): (p: nat)
    ensures p >= 1
  {
    if k == 0 then 1 else 10 * Pow10(k - 1)
  }

  predicate IsDigit(b: u8)
  {
    ZERO <= b <= ZERO + 9
  }

  predicate AllDigits(s: seq<u8>)
  {
    forall i :: 0 <= i < |s| ==> IsDigit(s[i])
  }

  /**
   * The decimal digits of `v`, most significant first and without a leading
   * zero; empty for 0, which is what the digit loop leaves for a zero value.
   */
  function DecimalDigits(v: nat): (s: seq<u8>)
    ensures |s| == 0 <==> v == 0
    ensures |s| > 0 ==> s[0] != ZERO
  {
    if v == 0 then [] else DecimalDigits(v / 10) + [ZERO + v % 10]
  }

  /** The value a string of ASCII digits denotes. */
  function DigitsValue(s: seq<u8>): nat
    requires AllDigits(s)
  {
    if |s| == 0 then 0 else 10 * DigitsValue(s[..|s| - 1]) + (s[|s| - 1] - ZERO)
  }

  /** `s` with zeros added in front up to width `w`. */
  function Padded(s: seq<u8>, w: nat): (p: seq<u8>)
    requires |s| <= w
    ensures |p| == w
  {
    Repeat(ZERO, w - |s|) + s
  }

  /**
   * The text of `v / 10^dp` with `dp` decimal places: the integer part (at
   * least "0"), a '.', and the remainder zero-padded to exactly `dp` digits.
   */
  function FixedPoint(v: nat, dp: nat): seq<u8>
  {
    IntegerPart(v, dp) + [DOT] + FractionPart(v, dp)
  }

  function IntegerPart(v: nat, dp: nat): (s: seq<u8>)
    ensures |s| >= 1
  {
    if v < Pow10(dp) then [ZERO] else DecimalDigits(v / Pow10(dp))
  }

  function FractionPart(v: nat, dp: nat): (s: seq<u8>)
    ensures |s| == dp
  {
    DigitsBound(v % Pow10(dp), dp);
    Padded(DecimalDigits(v % Pow10(dp)), dp)
  }

  /** What the decoders render for a value with `dp` decimal places. */
  function Rendered(v: nat, dp: nat): seq<u8>
  {
    if dp == 0 then DecimalDigits(v) else FixedPoint(v, dp)
  }

  // ---------------------------------------------------------------------
  // Properties
  // ---------------------------------------------------------------------

  /** The powers of ten the 64-bit bounds need. */
  lemma Pow10Values()
    ensures Pow10(MAX_DIGITS - 1) == 1_000_000_000_000_000_000
    ensures Pow10(MAX_DIGITS) == 10_000_000_000_000_000_000
    ensures Pow10(MAX_LEN) == 100_000_000_000_000_000_000
  {
    assert Pow10(1) == 10;
    assert Pow10(2) == 100;
    assert Pow10(3) == 1000;
    assert Pow10(4) == 10000;
    assert Pow10(5) == 100000;
    assert Pow10(6) == 1000000;
    assert Pow10(7) == 10000000;
    assert Pow10(8) == 100000000;
    assert Pow10(9) == 1000000000;
    assert Pow10(10) == 10000000000;
    assert Pow10(11) == 100000000000;
    assert Pow10(12) == 1000000000000;
    assert Pow10(13) == 10000000000000;
    assert Pow10(14) == 100000000000000;
    assert Pow10(15) == 1000000000000000;
    assert Pow10(16) == 10000000000000000;
    assert Pow10(17) == 100000000000000000;
    assert Pow10(18) == 1000000000000000000;
    assert Pow10(19) == 10000000000000000000;
    assert Pow10(20) == 100000000000000000000;
  }

  /** Every byte of the rendering is an ASCII digit. */
  lemma {:induction false} DigitsAreDigits(v: nat)
    ensures AllDigits(DecimalDigits(v))
  {
    if v > 0 {
      DigitsAreDigits(v / 10);
    }
  }

  /** Reading the digits back gives the value: rendering loses nothing. */
  lemma {:induction false} DigitsRoundTrip(v: nat)
    ensures AllDigits(DecimalDigits(v)) && DigitsValue(DecimalDigits(v)) == v
  {
    DigitsAreDigits(v);
    if v > 0 {
      var s := DecimalDigits(v);
      assert s[..|s| - 1] == DecimalDigits(v / 10);
      DigitsRoundTrip(v / 10);
    }
  }

  /** The value of two digit strings written one after the other. */
  lemma {:induction false} DigitsValueAppend(a: seq<u8>, b: seq<u8>)
    requires AllDigits(a) && AllDigits(b)
    ensures AllDigits(a + b)
    ensures DigitsValue(a + b) == DigitsValue(a) * Pow10(|b|) + DigitsValue(b)
  {
    if |b| == 0 {
      assert a + b == a;
    } else {
      var b', x := b[..|b| - 1], a + b;
      assert x[..|x| - 1] == a + b' && x[|x| - 1] == b[|b| - 1];
      DigitsValueAppend(a, b');
      ShiftStep(DigitsValue(a), Pow10(|b'|), DigitsValue(b'), b[|b| - 1] - ZERO);
    }
  }

  /** One more digit on the right multiplies the left part's weight by ten. */
  lemma ShiftStep(va: nat, p: nat, vb: nat, d: nat)
    ensures 10 * (va * p + vb) + d == va * (10 * p) + (10 * vb + d)
  {
    assert va * (10 * p) == 10 * (va * p);
  }

  /** A value below 10^k has at most k digits. */
  lemma {:induction false} DigitsBound(v: nat, k: nat)
    requires v < Pow10(k)
    ensures |DecimalDigits(v)| <= k
  {
    if v > 0 {
      DigitsBound(v / 10, k - 1);
    }
  }

  /** Zeros in front do not change the value. */
  lemma {:induction false} PaddedValue(s: seq<u8>, w: nat)
    requires |s| <= w && AllDigits(s)
    ensures AllDigits(Padded(s, w)) && DigitsValue(Padded(s, w)) == DigitsValue(s)
  {
    var p := Padded(s, w);
    assert forall i :: 0 <= i < w - |s| ==> p[i] == ZERO;
    if |s| == 0 {
      ZerosValue(w);
      assert p == Repeat(ZERO, w);
    } else {
      assert p[..w - 1] == Padded(s[..|s| - 1], w - 1);
      PaddedValue(s[..|s| - 1], w - 1);
    }
  }

  lemma {:induction false} ZerosValue(n: nat)
    ensures AllDigits(Repeat(ZERO, n)) && DigitsValue(Repeat(ZERO, n)) == 0
  {
    if n > 0 {
      assert Repeat(ZERO, n)[..n - 1] == Repeat(ZERO, n - 1);
      ZerosValue(n - 1);
    }
  }

  /** Zero-padding the digits of `u` to width k peels off the last digit. */
  lemma {:induction false} PaddedStep(u: nat, k: nat)
    requires 1 <= k && u < Pow10(k)
    ensures |DecimalDigits(u / 10)| <= k - 1
    ensures |DecimalDigits(u)| <= k
    ensures Padded(DecimalDigits(u), k) == Padded(DecimalDigits(u / 10), k - 1) + [ZERO + u % 10]
  {
    var q := u / 10;
    assert q < Pow10(k - 1) by {
      DivMod(u, 10);
    }
    DigitsBound(u, k);
    DigitsBound(q, k - 1);
    if u == 0 {
      ZerosStep(k);
    } else {
      assert DecimalDigits(u) == DecimalDigits(q) + [ZERO + u % 10];
      AppendPadded(DecimalDigits(q), ZERO + u % 10, k);
    }
  }

  lemma ZerosStep(k: nat)
    requires k >= 1
    ensures Padded([], k) == Padded([], k - 1) + [ZERO]
  {
    assert Repeat(ZERO, k) == Repeat(ZERO, k - 1) + [ZERO];
  }

  lemma AppendPadded(front: seq<u8>, c: u8, k: nat)
    requires 1 <= k && |front| <= k - 1
    ensures Padded(front + [c], k) == Padded(front, k - 1) + [c]
  {
    var z := Repeat(ZERO, k - 1 - |front|);
    assert z + (front + [c]) == (z + front) + [c];
  }

  /**
   * Splitting the digits of `v` after its first `|digits| - k` positions:
   * the front is `v / 10^k` and the back is `v mod 10^k` padded to k digits.
   */
  lemma {:induction false} DigitsSplit(v: nat, k: nat)
    requires v >= Pow10(k)
    ensures |DecimalDigits(v % Pow10(k))| <= k
    ensures DecimalDigits(v) == DecimalDigits(v / Pow10(k)) + Padded(DecimalDigits(v % Pow10(k)), k)
  {
    DigitsBound(v % Pow10(k), k);
    if k > 0 {
      var p := Pow10(k - 1);
      assert v / 10 >= p;
      DigitsSplit(v / 10, k - 1);
      DivQuotients(v, p);
      PaddedStep(v % Pow10(k), k);
    }
  }

  /** `(v / 10) / p == v / (10 p)`, `(v mod 10p) / 10 == (v / 10) mod p`, `(v mod 10p) mod 10 == v mod 10`. */
  lemma DivQuotients(v: nat, p: nat)
    requires p >= 1
    ensures (v / 10) / p == v / (10 * p)
    ensures (v % (10 * p)) / 10 == (v / 10) % p
    ensures (v % (10 * p)) % 10 == v % 10
  {
    var q, r := v / 10, v % 10;
    var a, b := q / p, q % p;
    DivMod(v, 10);
    DivMod(q, p);
    assert v == a * (10 * p) + (10 * b + r);
    assert 10 * b + r < 10 * p;
    DivModUnique(v, 10 * p, a, 10 * b + r);
    DivModUnique(10 * b + r, 10, b, r);
  }

  /** A value of at least 10^k has more than k digits. */
  lemma {:induction false} LongDigits(v: nat, k: nat)
    requires v >= Pow10(k)
    ensures |DecimalDigits(v)| >= k + 1
  {
    if k > 0 {
      assert v / 10 >= Pow10(k - 1);
      LongDigits(v / 10, k - 1);
    }
  }

  /**
   * The fixed-point text denotes the value: its integer digits are
   * `v / 10^dp`, its `dp` fraction digits are `v mod 10^dp`, and the
   * integer part has no leading zero unless it is the single digit "0".
   */
  lemma FixedPointValue(v: nat, dp: nat)
    ensures AllDigits(IntegerPart(v, dp)) && AllDigits(FractionPart(v, dp))
    ensures DigitsValue(IntegerPart(v, dp)) == v / Pow10(dp)
    ensures DigitsValue(FractionPart(v, dp)) == v % Pow10(dp)
    ensures DigitsValue(IntegerPart(v, dp)) * Pow10(dp) + DigitsValue(FractionPart(v, dp)) == v
    ensures IntegerPart(v, dp)[0] != ZERO || IntegerPart(v, dp) == [ZERO]
  {
    IntegerPartValue(v, dp);
    FractionPartValue(v, dp);
    DivMod(v, Pow10(dp));
  }

  lemma IntegerPartValue(v: nat, dp: nat)
    ensures AllDigits(IntegerPart(v, dp)) && DigitsValue(IntegerPart(v, dp)) == v / Pow10(dp)
    ensures IntegerPart(v, dp)[0] != ZERO || IntegerPart(v, dp) == [ZERO]
  {
    if v < Pow10(dp) {
      DivModUnique(v, Pow10(dp), 0, v);
      assert [ZERO][..0] == [];
    } else {
      DigitsRoundTrip(v / Pow10(dp));
    }
  }

  lemma FractionPartValue(v: nat, dp: nat)
    ensures AllDigits(FractionPart(v, dp)) && DigitsValue(FractionPart(v, dp)) == v % Pow10(dp)
  {
    DigitsBound(v % Pow10(dp), dp);
    DigitsRoundTrip(v % Pow10(dp));
    PaddedValue(DecimalDigits(v % Pow10(dp)), dp);
  }

  /** With one place the fraction is the last digit: `x / 10` printed to one decimal. */
  lemma OnePlace(x: nat)
    ensures FractionPart(x, 1) == [ZERO + x % 10]
    ensures Rendered(x, 1) == IntegerPart(x, 1) + [DOT] + [ZERO + x % 10]
  {
    assert Pow10(1) == 10;
    if x % 10 != 0 {
      assert DecimalDigits(x % 10) == DecimalDigits(0) + [ZERO + x % 10];
    }
  }

  /**
   * A buffer of width `w` after the digit loop: zeros, then the digits of
   * `v` flush right.  Cutting it where the decimal decoders do yields
   * `FixedPoint`.
   */
  lemma BufferWindow(buf: seq<u8>, w: nat, v: nat, dp: nat, start: nat, end: nat)
    requires 1 <= dp < w && |DecimalDigits(v)| <= w
    requires buf == Padded(DecimalDigits(v), w)
    requires end == w - dp
    requires start == if w - |DecimalDigits(v)| < end - 1 then w - |DecimalDigits(v)| else end - 1
    ensures start <= end <= |buf|
    ensures buf[start..end] + [DOT] + buf[end..] == FixedPoint(v, dp)
  {
    if v >= Pow10(dp) {
      LongWindow(buf, w, v, dp, start, end);
    } else {
      ShortWindow(buf, w, v, dp, start, end);
    }
  }

  lemma LongWindow(buf: seq<u8>, w: nat, v: nat, dp: nat, start: nat, end: nat)
    requires 1 <= dp < w && |DecimalDigits(v)| <= w && v >= Pow10(dp)
    requires buf == Padded(DecimalDigits(v), w)
    requires end == w - dp
    requires start == if w - |DecimalDigits(v)| < end - 1 then w - |DecimalDigits(v)| else end - 1
    ensures start <= end <= |buf|
    ensures buf[start..end] == IntegerPart(v, dp) && buf[end..] == FractionPart(v, dp)
  {
    LongDigits(v, dp);
    DigitsSplit(v, dp);
    var d := DecimalDigits(v);
    WindowOfPadded(w - |d|, IntegerPart(v, dp), FractionPart(v, dp));
  }

  lemma ShortWindow(buf: seq<u8>, w: nat, v: nat, dp: nat, start: nat, end: nat)
    requires 1 <= dp < w && |DecimalDigits(v)| <= w && v < Pow10(dp)
    requires buf == Padded(DecimalDigits(v), w)
    requires end == w - dp
    requires start == if w - |DecimalDigits(v)| < end - 1 then w - |DecimalDigits(v)| else end - 1
    ensures start <= end <= |buf|
    ensures buf[start..end] == IntegerPart(v, dp) && buf[end..] == FractionPart(v, dp)
  {
    DigitsBound(v, dp);
    assert v % Pow10(dp) == v by {
      DivModUnique(v, Pow10(dp), 0, v);
    }
    ZerosWindow(DecimalDigits(v), w, dp);
  }

  /** The two pieces of `zeros ++ a ++ b`, cut where `a` ends. */
  lemma WindowOfPadded(z: nat, a: seq<u8>, b: seq<u8>)
    ensures (Repeat(ZERO, z) + (a + b))[z..z + |a|] == a
    ensures (Repeat(ZERO, z) + (a + b))[z + |a|..] == b
  {
  }

  /** Digits shorter than `dp` + 1 leave a "0" just before the last `dp` bytes. */
  lemma ZerosWindow(d: seq<u8>, w: nat, dp: nat)
    requires |d| <= dp < w
    ensures Padded(d, w)[w - dp - 1..w - dp] == [ZERO]
    ensures Padded(d, w)[w - dp..] == Padded(d, dp)
  {
    var buf := Padded(d, w);
    assert buf[w - dp - 1] == ZERO;
    var z := Repeat(ZERO, w - |d|);
    assert z[w - dp..] == Repeat(ZERO, dp - |d|);
    assert buf[w - dp..] == z[w - dp..] + d;
  }

  // ---------------------------------------------------------------------
  // The digit loop
  // ---------------------------------------------------------------------

  /**
   * The loop every decoder runs: writes the digits of `value0` right to left
   * from `buf[19]` and returns the index just before the first digit.  The
   * index never goes below zero because a value below 10^19 has at most 19
   * digits; bytes before the digits are left as they were.
   */
  method FillDigits(buf: array<u8>, value0: nat) returns (index: nat)
    requires buf.Length == MAX_LEN && value0 < Pow10(MAX_DIGITS)
    modifies buf
    ensures index < MAX_LEN
    ensures buf[index + 1..] == DecimalDigits(value0)
    ensures forall i :: 0 <= i <= index ==> buf[i] == old(buf[i])
  {
    var value: nat := value0;
    index := MAX_LEN - 1;
    assert buf[index + 1..] == [];
    while value > 0
      invariant index < MAX_LEN && value < Pow10(index)
      invariant DecimalDigits(value) + buf[index + 1..] == DecimalDigits(value0)
      invariant forall i :: 0 <= i <= index ==> buf[i] == old(buf[i])
      decreases value
    {
      DigitStep(value, index);
      var digit := value % 10;
      assert DecimalDigits(value / 10) + [ZERO + digit] + buf[index + 1..] == DecimalDigits(value / 10) + ([ZERO + digit] + buf[index + 1..]);
      WriteDigit(buf, index, ZERO + digit);
      value := value / 10;
      index := index - 1;
    }
  }

  /** `buf[index] = digit`: the written tail grows by one byte at the front. */
  method WriteDigit(buf: array<u8>, index: nat, digit: u8)
    requires index < buf.Length
    modifies buf
    ensures buf[index..] == [digit] + old(buf[index + 1..])
    ensures forall i :: 0 <= i < index ==> buf[i] == old(buf[i])
  {
    buf[index] := digit;
  }

  /**
   * One turn of a digit loop that fills `buf` leftwards from position `k`:
   * the last digit of `value` goes just before `k`.
   */
  method PlaceLastDigit(buf: array<u8>, value: nat, k: nat)
    requires 0 < value < Pow10(k) && k <= buf.Length
    modifies buf
    ensures 1 <= k && value / 10 < Pow10(k - 1)
    ensures DecimalDigits(value / 10) + buf[k - 1..] == DecimalDigits(value) + old(buf[k..])
    ensures forall i :: 0 <= i < k - 1 ==> buf[i] == old(buf[i])
  {
    DigitStep(value, k);
    var digit := value % 10;
    assert DecimalDigits(value / 10) + [ZERO + digit] + buf[k..] == DecimalDigits(value / 10) + ([ZERO + digit] + buf[k..]);
    WriteDigit(buf, k - 1, ZERO + digit);
  }

  /** One turn of a digit loop: the last digit, and the bound one place down. */
  lemma DigitStep(value: nat, k: nat)
    requires 0 < value < Pow10(k)
    ensures k >= 1 && value / 10 < Pow10(k - 1)
    ensures DecimalDigits(value) == DecimalDigits(value / 10) + [ZERO + value % 10]
  {
  }

  /**
   * `unsigned_integer.rs` and `integer.rs`: render into a zeroed buffer and
   * append the digits written.
   */
  method PushDigits(value: nat, out0: seq<u8>) returns (out: seq<u8>)
    requires value < Pow10(MAX_DIGITS)
    ensures out == out0 + DecimalDigits(value)
  {
    var buf := new u8[MAX_LEN](_ => 0);
    var index := FillDigits(buf, value);
    out := out0 + buf[index + 1..];
  }

  /**
   * `unsigned_decimal.rs` and `decimal.rs`: render into a buffer of '0's;
   * with decimal places, append the integer window (at least one digit), a
   * '.', and the last `dp` bytes of the buffer.
   */
  method PushRendered(value: nat, dp: nat, out0: seq<u8>) returns (out: seq<u8>)
    requires dp <= 15 && value < Pow10(MAX_DIGITS)
    ensures out == out0 + Rendered(value, dp)
  {
    var buf := new u8[MAX_LEN](_ => ZERO);
    assert forall i :: 0 <= i < MAX_LEN ==> buf[i] == ZERO;
    var index := FillDigits(buf, value);
    if dp > 0 {
      var integerEnd := MAX_LEN - dp;
      var integerStart := if index + 1 < integerEnd - 1 then index + 1 else integerEnd - 1;
      FilledBuffer(buf, index + 1, DecimalDigits(value));
      BufferWindow(buf[..], MAX_LEN, value, dp, integerStart, integerEnd);
      out := PushWindows(buf, integerStart, integerEnd, out0);
    } else {
      out := out0 + buf[index + 1..];
    }
  }

  /** Appends the integer window `buf[start..end]`, a '.', and `buf[end..]`. */
  method PushWindows(buf: array<u8>, start: nat, end: nat, out0: seq<u8>) returns (out: seq<u8>)
    requires start <= end <= buf.Length
    ensures out == out0 + (buf[..][start..end] + [DOT] + buf[..][end..])
  {
    out := out0 + buf[start..end];
    out := out + [DOT];
    out := out + buf[end..];
  }

  /** A buffer of '0's whose tail was overwritten by `d` is `d` padded. */
  lemma FilledBuffer(buf: array<u8>, start: nat, d: seq<u8>)
    requires start <= buf.Length
    requires forall i :: 0 <= i < start ==> buf[i] == ZERO
    requires buf[start..] == d
    ensures |d| <= buf.Length && buf[..] == Padded(d, buf.Length)
  {
    assert buf[..start] == Repeat(ZERO, start);
    assert buf[..] == buf[..start] + buf[start..];
  }

  /** The decimal tests' expected text `x / 10` with one decimal place. */
  lemma Vectors()
    ensures FixedPoint(1, 1) == [ZERO, DOT, ZERO + 1]
    ensures FixedPoint(123, 1) == [ZERO + 1, ZERO + 2, DOT, ZERO + 3]
    ensures DecimalDigits(907) == [ZERO + 9, ZERO, ZERO + 7]
  {
    assert DecimalDigits(12) == [ZERO + 1, ZERO + 2];
    assert Padded(DecimalDigits(3), 1) == [ZERO + 3];
    assert Padded(DecimalDigits(1), 1) == [ZERO + 1];
  }
}
