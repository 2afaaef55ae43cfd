/**
 * The variable-length integer (VLE) engine of src/vle_variants.rs.
 *
 * `Encode(v, r)` gives the low `r` bits of the first byte to the value:
 * for r >= 2 that is r-1 data bits and a continuation flag at bit r-1; for
 * r = 1 a single data bit and no flag, so a second byte always follows; for
 * r = 0 the first byte is an ordinary group and the whole encoding is
 * unsigned LEB128 (section 7.6 of the DWARF Debugging Information Format,
 * version 5).  Every byte after the first is a 7-bit group, least
 * significant first, with bit 7 set on all groups but the last.
 */
module Vle {
  import opened Bytes

  // ---------------------------------------------------------------------
  // Specification
  // ---------------------------------------------------------------------

  /** Unsigned LEB128 of `v`: 7-bit groups, least significant first. */
  function Leb(v: nat): (s: seq<u8>)
    ensures |s| >= 1
    ensures s[|s| - 1] < 0x80
    ensures forall i :: 0 <= i < |s| - 1 ==> s[i] >= 0x80
  {
    if v < 0x80 then [v] else [v % 0x80 + 0x80] + Leb(v / 0x80)
  }

  /**
   * Reads LEB128 groups from the front of `s` up to and including the first
   * byte whose bit 7 is clear; the value and the number of bytes read, or
   * None when `s` ends before such a byte.
   */
  function LebDecode(s: seq<u8>): (r: Option<(nat, nat)>)
    ensures r.Some? ==> 1 <= r.value.1 <= |s|
  {
    if |s| == 0 then None
    else if s[0] < 0x80 then Some((s[0], 1))
    else match LebDecode(s[1..])
      case None => None
      case Some((v, n)) => Some((s[0] - 0x80 + 0x80 * v, n + 1))
  }

  lemma Pow2Monotone(a: nat, b: nat)
    requires a <= b
    ensures Pow2(a) <= Pow2(b)
  {
    if a < b {
      Pow2Monotone(a, b - 1);
    }
  }

  /** The continuation flag of a first byte with `r` reserved bits (r >= 2). */
  function FirstFlag(r: nat): (f: nat)
    requires 2 <= r <= 8
    ensures f == Pow2(r - 1) && 2 <= f <= 0x80
  {
    Pow2Monotone(r - 1, 7);
    Pow2Monotone(1, r - 1);
    Pow2(r - 1)
  }

  /** The bytes `encode(v, r)` returns. */
  function Encode(v: nat, r: nat): (s: seq<u8>)
    requires r <= 8
    ensures |s| >= 1
  {
    if r == 0 then Leb(v)
    else if r == 1 then [v % 2] + Leb(v / 2)
    else EncodeWide(v, r)
  }

  /** `encode(v, r)` for r >= 2: r-1 data bits and the flag, then LEB128. */
  function EncodeWide(v: nat, r: nat): (s: seq<u8>)
    requires 2 <= r <= 8
    ensures |s| >= 1
  {
    if v < FirstFlag(r) then [v]
    else [v % FirstFlag(r) + FirstFlag(r)] + Leb(v / FirstFlag(r))
  }

  /** What `decode(s, r)` returns, or None when it would read past `s`. */
  function Decode(s: seq<u8>, r: nat): (d: Option<(nat, nat)>)
    requires r <= 8
    ensures d.Some? ==> 1 <= d.value.1 <= |s|
  {
    if r == 0 then LebDecode(s)
    else if |s| == 0 then None
    else if r == 1 then
      match LebDecode(s[1..])
      case None => None
      case Some((v, n)) => Some((s[0] % 2 + 2 * v, n + 1))
    else DecodeWide(s, r)
  }

  /** `decode(s, r)` for r >= 2 on a non-empty `s`. */
  function DecodeWide(s: seq<u8>, r: nat): (d: Option<(nat, nat)>)
    requires 2 <= r <= 8 && |s| >= 1
    ensures d.Some? ==> 1 <= d.value.1 <= |s|
  {
    if !Bit(s[0], r - 1) then Some((s[0] % FirstFlag(r), 1))
    else
      match LebDecode(s[1..])
      case None => None
      case Some((v, n)) => Some((s[0] % FirstFlag(r) + FirstFlag(r) * v, n + 1))
  }

  /**
   * The shift `decode` gives the last 7-bit group it reads when it reads
   * `len` bytes with `r` bits in the first byte (0 when it reads no group):
   * the first byte holds `r` bits for r <= 1 and r-1 for r >= 2, and each
   * group before the last adds 7.
   */
  function LastShift(r: nat, len: nat): nat
  {
    if r == 0 then (if len == 0 then 0 else 7 * (len - 1))
    else if len <= 1 then 0
    else if r == 1 then 1 + 7 * (len - 2)
    else r - 1 + 7 * (len - 2)
  }

  /**
   * What `decode(s, r)` returns on `u64`: every shifted group is cut to 64
   * bits, so the value is `Decode`'s modulo 2^64; None when `decode` would
   * read past `s` or shift a group by 64 or more, which overflows (a panic
   * in a debug build).
   */
  function DecodeU64(s: seq<u8>, r: nat): (d: Option<(nat, nat)>)
    requires r <= 8
    ensures d.Some? ==> d.value.0 < U64_MODULUS && 1 <= d.value.1 <= |s|
  {
    match Decode(s, r)
    case None => None
    case Some((v, n)) => if LastShift(r, n) < 64 then Some((v % U64_MODULUS, n)) else None
  }

  // ---------------------------------------------------------------------
  // Properties
  // ---------------------------------------------------------------------

  /**
   * Every shift stays below 64 exactly when `decode` reads at most ten
   * bytes, whatever the first-byte width.
   */
  lemma ShiftBound(r: nat, len: nat)
    requires r <= 8
    ensures LastShift(r, len) < 64 <==> len <= 10
  {
  }

  /** `DecodeU64` succeeds exactly on the reads of at most ten bytes. */
  lemma TenBytes(s: seq<u8>, r: nat)
    requires r <= 8
    ensures DecodeU64(s, r).Some? <==> Decode(s, r).Some? && Decode(s, r).value.1 <= 10
    ensures DecodeU64(s, r).Some? ==> DecodeU64(s, r).value.1 == Decode(s, r).value.1
  {
    if Decode(s, r).Some? {
      ShiftBound(r, Decode(s, r).value.1);
    }
  }

  /**
   * The encoding of a `u64` has at most ten bytes, whatever `r`: the first
   * byte takes at least one bit and each further group seven.
   */
  lemma EncodeShort(v: u64, r: nat)
    requires r <= 8
    ensures |Encode(v, r)| <= 10
  {
    Pow2Of64();
    if r == 0 {
      Pow2Monotone(64, 70);
      LebShort(v, 10);
    } else if r == 1 {
      QuotientBelow(v, 1, 63);
      LebShort(v / 2, 9);
    } else if v >= FirstFlag(r) {
      QuotientBelow(v, r - 1, 65 - r);
      Pow2Monotone(65 - r, 63);
      LebShort(v / FirstFlag(r), 9);
    }
  }

  /** LEB128 of a value below 2^(7k) has at most k bytes. */
  lemma {:induction false} LebShort(q: nat, k: nat)
    requires k >= 1 && q < Pow2(7 * k)
    ensures |Leb(q)| <= k
  {
    if q >= 0x80 {
      Pow2Small();
      if k == 1 {
        assert false;
      }
      QuotientBelow(q, 7, 7 * (k - 1));
      LebShort(q / 0x80, k - 1);
    }
  }

  /** `x < 2^(a+b)` leaves `x / 2^a` below `2^b`. */
  lemma QuotientBelow(x: nat, a: nat, b: nat)
    requires x < Pow2(a + b)
    ensures x / Pow2(a) < Pow2(b)
  {
    var p, q := Pow2(a), x / Pow2(a);
    Pow2Add(a, b);
    DivMod(x, p);
    if q >= Pow2(b) {
      ScaleUp(q, Pow2(b), p);
      assert false;
    }
  }

  lemma ScaleUp(m: nat, n: nat, p: nat)
    requires m >= n
    ensures m * p >= n * p
  {
  }

  /**
   * Decoding on `u64` undoes encoding for every `u64`: the encoding is
   * short enough for every shift to fit, and the value needs no cutting.
   */
  lemma RoundTripU64(v: u64, r: nat, rest: seq<u8>)
    requires r <= 8
    ensures DecodeU64(Encode(v, r) + rest, r) == Some((v, |Encode(v, r)|))
  {
    RoundTrip(v, r, rest);
    EncodeShort(v, r);
    ShiftBound(r, |Encode(v, r)|);
    DivModUnique(v, U64_MODULUS, 0, v);
  }

  /**
   * A read whose exact value fits in 64 bits reads the same on `u64`, as
   * long as it is at most ten bytes long.
   */
  lemma ExactOnU64(s: seq<u8>, r: nat)
    requires r <= 8 && Decode(s, r).Some?
    requires Decode(s, r).value.0 < U64_MODULUS && Decode(s, r).value.1 <= 10
    ensures DecodeU64(s, r) == Decode(s, r)
  {
    ShiftBound(r, Decode(s, r).value.1);
    DivModUnique(Decode(s, r).value.0, U64_MODULUS, 0, Decode(s, r).value.0);
  }

  /** LEB128 decoding undoes LEB128 encoding and stops at its last byte. */
  lemma {:induction false} LebRoundTrip(v: nat, rest: seq<u8>)
    ensures LebDecode(Leb(v) + rest) == Some((v, |Leb(v)|))
  {
    if v >= 0x80 {
      LebRoundTrip(v / 0x80, rest);
      assert (Leb(v) + rest)[1..] == Leb(v / 0x80) + rest;
    }
  }

  /**
   * Round trip and self-delimitation: decoding `encode(v, r)` followed by
   * any bytes gives back `v` and consumes exactly the encoding.
   */
  lemma RoundTrip(v: nat, r: nat, rest: seq<u8>)
    requires r <= 8
    ensures Decode(Encode(v, r) + rest, r) == Some((v, |Encode(v, r)|))
  {
    if r == 0 {
      LebRoundTrip(v, rest);
    } else if r == 1 {
      OneBitRoundTrip(v, rest);
    } else {
      WideRoundTrip(v, r, rest);
    }
  }

  lemma OneBitRoundTrip(v: nat, rest: seq<u8>)
    ensures Decode(Encode(v, 1) + rest, 1) == Some((v, |Encode(v, 1)|))
  {
    var s := Encode(v, 1) + rest;
    LebRoundTrip(v / 2, rest);
    assert s[1..] == Leb(v / 2) + rest;
  }

  lemma WideRoundTrip(v: nat, r: nat, rest: seq<u8>)
    requires 2 <= r <= 8
    ensures Decode(Encode(v, r) + rest, r) == Some((v, |Encode(v, r)|))
  {
    if v < FirstFlag(r) {
      ShortRoundTrip(v, r, rest);
    } else {
      LongRoundTrip(v, r, rest);
    }
  }

  /** A value below the flag is its own single byte, with the flag clear. */
  lemma ShortRoundTrip(v: nat, r: nat, rest: seq<u8>)
    requires 2 <= r <= 8 && v < FirstFlag(r)
    ensures Decode(Encode(v, r) + rest, r) == Some((v, |Encode(v, r)|))
  {
    var f := FirstFlag(r);
    var s := Encode(v, r) + rest;
    assert Encode(v, r) == [v];
    assert s[0] == v;
    DivModUnique(v, f, 0, v);
    assert !Bit(s[0], r - 1);
  }

  /** A value at or above the flag: low bits and flag, then LEB128 groups. */
  lemma LongRoundTrip(v: nat, r: nat, rest: seq<u8>)
    requires 2 <= r <= 8 && v >= FirstFlag(r)
    ensures Decode(Encode(v, r) + rest, r) == Some((v, |Encode(v, r)|))
  {
    var f := FirstFlag(r);
    var b0 := LongFirstByte(v, r);
    var s := Encode(v, r) + rest;
    assert s[0] == b0 && s[1..] == Leb(v / f) + rest;
    LebRoundTrip(v / f, rest);
  }

  /**
   * The first byte of a long encoding: the low bits of `v` under the flag;
   * `Decode` takes those bits back, and they complete the groups to `v`.
   */
  lemma LongFirstByte(v: nat, r: nat) returns (b0: u8)
    requires 2 <= r <= 8 && v >= FirstFlag(r)
    ensures Encode(v, r) == [b0] + Leb(v / FirstFlag(r))
    ensures Bit(b0, r - 1)
    ensures b0 % FirstFlag(r) + FirstFlag(r) * (v / FirstFlag(r)) == v
  {
    var f := FirstFlag(r);
    DivMod(v, f);
    b0 := v % f + f;
    DivModUnique(b0, f, 1, v % f);
  }

  /**
   * The first byte keeps to its `r` reserved bits, so bits r..7 are free for
   * a caller's tags; for r >= 2 it is the low r-1 bits of `v` plus the flag
   * exactly when more bytes follow; for r = 1 it is `v mod 2` and at least
   * one more byte follows.
   */
  lemma FirstByte(v: nat, r: nat)
    requires 1 <= r <= 8
    ensures Encode(v, r)[0] < Pow2(r)
    ensures r == 1 ==> Encode(v, r)[0] == v % 2 && |Encode(v, r)| >= 2
    ensures r >= 2 ==> Encode(v, r)[0] == v % Pow2(r - 1) + (if v >= Pow2(r - 1) then Pow2(r - 1) else 0)
    ensures r >= 2 ==> (|Encode(v, r)| == 1 <==> v < Pow2(r - 1))
  {
    if r >= 2 {
      var f := FirstFlag(r);
      assert Pow2(r) == 2 * f;
      WideShape(v, r);
      DivMod(v, f);
      if v < f {
        DivModUnique(v, f, 0, v);
      } else {
        assert v / f != 0;
      }
    }
  }

  /** How `Encode` splits `v` at the continuation flag of the first byte. */
  lemma WideShape(v: nat, r: nat)
    requires 2 <= r <= 8
    ensures v / FirstFlag(r) == 0 ==> Encode(v, r) == [v % FirstFlag(r)]
    ensures v / FirstFlag(r) != 0 ==> Encode(v, r) == [v % FirstFlag(r) + FirstFlag(r)] + Leb(v / FirstFlag(r))
  {
    var f := FirstFlag(r);
    DivMod(v, f);
    if v < f {
      DivModUnique(v, f, 0, v);
    }
  }

  /** `encode(0, r)` is `[0, 0]` for r = 1 and `[0]` otherwise. */
  lemma EncodeZero(r: nat)
    requires r <= 8
    ensures Encode(0, r) == if r == 1 then [0, 0] else [0]
  {
  }

  /**
   * Bits at and above `r` in the first byte do not affect decoding: a tag
   * ORed there by a caller is invisible to `decode(s, r)`.
   */
  lemma IgnoresHighBits(b0: u8, t: nat, tail: seq<u8>, r: nat)
    requires 1 <= r <= 8 && b0 < Pow2(r) && b0 + t * Pow2(r) < 0x100
    ensures Decode([b0 + t * Pow2(r)] + tail, r) == Decode([b0] + tail, r)
  {
    assert t * Pow2(r) >= 0 by {
      ScaleUp(t, 0, Pow2(r));
    }
    if r == 1 {
      assert Pow2(r) == 2 by {
        assert Pow2(0) == 1;
      }
      OneBitIgnoresHighBits(b0, t, tail);
    } else {
      WideIgnoresHighBits(b0, b0 + t * Pow2(r), t, tail, r);
    }
  }

  lemma OneBitIgnoresHighBits(b0: u8, t: nat, tail: seq<u8>)
    requires b0 + t * 2 < 0x100
    ensures Decode([b0 + t * 2] + tail, 1) == Decode([b0] + tail, 1)
  {
    var s1, s2 := [b0 + t * 2] + tail, [b0] + tail;
    assert s1[1..] == tail == s2[1..];
    SameLowBits(b0, t, 1);
  }

  lemma WideIgnoresHighBits(b0: u8, b: u8, t: nat, tail: seq<u8>, r: nat)
    requires 2 <= r <= 8 && b == b0 + t * Pow2(r) && b < 0x100
    ensures Decode([b] + tail, r) == Decode([b0] + tail, r)
  {
    var s1, s2 := [b] + tail, [b0] + tail;
    assert s1[0] == b && s2[0] == b0;
    assert s1[1..] == tail == s2[1..];
    var f := FirstFlag(r);
    assert b % f == b0 % f && Bit(b, r - 1) == Bit(b0, r - 1) by {
      assert t * Pow2(r) == t * (2 * f);
      SameLowBits(b0, t, f);
    }
  }

  /** Adding a multiple of 2f leaves the value mod f and bit log2(f) alone. */
  lemma SameLowBits(b0: nat, t: nat, f: nat)
    requires f > 0
    ensures (b0 + t * (2 * f)) % f == b0 % f
    ensures ((b0 + t * (2 * f)) / f) % 2 == (b0 / f) % 2
  {
    var b := b0 + t * (2 * f);
    assert b == (b0 / f + 2 * t) * f + b0 % f by {
      DivMod(b0, f);
    }
    DivModUnique(b, f, b0 / f + 2 * t, b0 % f);
  }

  // ---------------------------------------------------------------------
  // The source's loops
  // ---------------------------------------------------------------------

  /**
   * The group loop of `encode` (the body of `vle_encode_loop!`): pushes the
   * 7-bit groups of `value`, at least one, onto `out`.
   */
  method PushGroups(value0: nat, out0: seq<u8>) returns (out: seq<u8>)
    ensures out == out0 + Leb(value0)
  {
    var value := value0;
    out := out0;
    Pow2Small();
    while true
      invariant out + Leb(value) == out0 + Leb(value0)
      decreases value
    {
      var val := value % 0x80;
      ghost var v := value;
      value := value / 0x80;
      if value > 0 {
        var byte: u8 := BitOr(val, 0x80, 7);
        assert Leb(v) == [byte] + Leb(value);
        out := out + [byte];
      } else {
        assert Leb(v) == [val];
        out := out + [val];
        break;
      }
    }
  }

  /** Shifting a 7-bit group above a `bits`-bit prefix keeps the two apart. */
  lemma GroupFits(result: nat, val: nat, bits: nat)
    requires result < Pow2(bits) && val < 0x80
    ensures (val * Pow2(bits)) % Pow2(bits) == 0
    ensures result + val * Pow2(bits) < Pow2(bits + 7)
  {
    DivModUnique(val * Pow2(bits), Pow2(bits), val, 0);
    Pow2Add(bits, 7);
    Pow2Small();
    assert val * Pow2(bits) <= 0x7F * Pow2(bits);
  }

  lemma GroupShift(val: nat, rest: nat, bits: nat)
    ensures Pow2(bits) * (val + 0x80 * rest) == val * Pow2(bits) + Pow2(bits + 7) * rest
  {
    Pow2Add(bits, 7);
    Pow2Small();
  }

  /**
   * The group loop of `decode` (the body of `vle_decode_loop!`): ORs the
   * 7-bit groups from `index0` on into `result0` above its `bits0` bits,
   * each shifted on `u64`, and stops at the first byte whose bit 7 is
   * clear, returning its index.  Only the last group can lose bits to the
   * 64-bit width, so the result is the exact one modulo 2^64.
   */
  method ReadGroups(input: seq<u8>, result0: nat, bits0: nat, index0: nat)
    returns (result: nat, index: nat)
    requires index0 <= |input| && LebDecode(input[index0..]).Some?
    requires result0 < Pow2(bits0)
    requires bits0 + 7 * (LebDecode(input[index0..]).value.1 - 1) < 64
    ensures index0 <= index < |input|
    ensures result == (result0 + Pow2(bits0) * LebDecode(input[index0..]).value.0) % U64_MODULUS
    ensures index + 1 == index0 + LebDecode(input[index0..]).value.1
  {
    ghost var total := result0 + Pow2(bits0) * LebDecode(input[index0..]).value.0;
    ghost var stop := index0 + LebDecode(input[index0..]).value.1;
    result, index := result0, index0;
    var bits: nat := bits0;
    while true
      invariant index0 <= index <= |input| && LebDecode(input[index..]).Some?
      invariant result < Pow2(bits)
      invariant result + Pow2(bits) * LebDecode(input[index..]).value.0 == total
      invariant index + LebDecode(input[index..]).value.1 == stop
      invariant bits + 7 * (LebDecode(input[index..]).value.1 - 1) < 64
      decreases |input| - index
    {
      var last;
      result, last := ReadGroup(input, index, result, bits, total);
      if last {
        return;
      }
      assert input[index..][1..] == input[index + 1..];
      bits := bits + 7;
      index := index + 1;
    }
  }

  /**
   * One turn of the group loop: ORs the group at `index` into `result` and
   * says whether bit 7 of its byte is clear, so that it was the last.
   */
  method ReadGroup(input: seq<u8>, index: nat, result: nat, bits: nat, ghost total: nat)
    returns (next: nat, last: bool)
    requires index <= |input| && LebDecode(input[index..]).Some?
    requires result < Pow2(bits)
    requires result + Pow2(bits) * LebDecode(input[index..]).value.0 == total
    requires bits + 7 * (LebDecode(input[index..]).value.1 - 1) < 64
    ensures last <==> input[index] < 0x80
    ensures last ==> next == total % U64_MODULUS && LebDecode(input[index..]).value.1 == 1
    ensures !last ==> LebDecode(input[index..][1..]).Some? && next < Pow2(bits + 7)
    ensures !last ==> next + Pow2(bits + 7) * LebDecode(input[index..][1..]).value.0 == total
    ensures !last ==> LebDecode(input[index..]).value.1 == LebDecode(input[index..][1..]).value.1 + 1
  {
    var byte := input[index];
    var val := byte % 0x80;
    next := OrGroup(result, val, bits);
    last := byte < 0x80;
    if last {
      LebLast(input[index..]);
      assert result + val * Pow2(bits) == total;
    } else {
      GroupStep(input[index..], bits);
      assert bits + 7 <= 64;
    }
  }

  /**
   * `result | (val << bits)` on `u64`, for a 7-bit group `val` above a
   * `result` that fits in `bits` < 64 bits: the exact sum modulo 2^64,
   * which is the exact sum while it fits.
   */
  method OrGroup(result: nat, val: nat, bits: nat) returns (next: nat)
    requires result < Pow2(bits) && bits < 64 && val < 0x80
    ensures next == (result + val * Pow2(bits)) % U64_MODULUS
    ensures bits + 7 <= 64 ==> next == result + val * Pow2(bits) < Pow2(bits + 7)
  {
    var shifted := (val * Pow2(bits)) % U64_MODULUS;
    WrapGroup(result, val, bits, shifted);
    next := BitOr(result, shifted, bits);
  }

  /**
   * `val << b` on `u64` for a group `val` above a prefix `e < 2^b`, b < 64:
   * the truncated shift still leaves the prefix's bits clear, and ORing it
   * in gives the exact sum modulo 2^64, which is the exact sum while it
   * fits in 64 bits.
   */
  lemma WrapGroup(e: nat, val: nat, b: nat, shifted: nat)
    requires e < Pow2(b) && b < 64 && val < 0x80
    requires shifted == (val * Pow2(b)) % U64_MODULUS
    ensures shifted % Pow2(b) == 0
    ensures e + shifted == (e + val * Pow2(b)) % U64_MODULUS
    ensures b + 7 <= 64 ==> e + shifted == e + val * Pow2(b) < Pow2(b + 7)
  {
    GroupFits(e, val, b);
    var p := Pow2(b);
    var q, y := ShiftParts(val, b);
    DivModUnique(val * p, U64_MODULUS, q, y * p);
    DivModUnique(y * p, p, y, 0);
    DivModUnique(e + val * p, U64_MODULUS, q, e + y * p);
    if b + 7 <= 64 {
      KeepsBelow64(e + val * p, b + 7);
    }
  }

  /**
   * `val * 2^b` split at bit 64: `q` whole multiples of 2^64 and the part
   * `y * 2^b` below 2^64 - 2^b.
   */
  lemma ShiftParts(val: nat, b: nat) returns (q: nat, y: nat)
    requires b < 64
    ensures val * Pow2(b) == q * U64_MODULUS + y * Pow2(b)
    ensures y * Pow2(b) + Pow2(b) <= U64_MODULUS
  {
    var p, c := Pow2(b), Pow2(64 - b);
    Pow2Split(b);
    DivMod(val, c);
    q, y := val / c, val % c;
    Distribute(val, q, c, y, p, U64_MODULUS);
  }

  lemma Pow2Split(b: nat)
    requires b <= 64
    ensures Pow2(64 - b) * Pow2(b) == U64_MODULUS
  {
    Pow2Add(b, 64 - b);
    Pow2Of64();
  }

  /** `val = q*c + y` with `y < c`, scaled by `p` where `c * p == m`. */
  lemma Distribute(val: nat, q: nat, c: nat, y: nat, p: nat, m: nat)
    requires val == q * c + y && y < c && c * p == m
    ensures val * p == q * m + y * p
    ensures y * p + p <= m
  {
    ScaleUp(c, y + 1, p);
  }

  /** A sum below 2^k for k <= 64 is its own value modulo 2^64. */
  lemma KeepsBelow64(x: nat, k: nat)
    requires k <= 64 && x < Pow2(k)
    ensures x % U64_MODULUS == x
  {
    Pow2Monotone(k, 64);
    Pow2Of64();
    DivModUnique(x, U64_MODULUS, 0, x);
  }

  /** A LEB128 byte with bit 7 clear is the last: its value is the group. */
  lemma LebLast(s: seq<u8>)
    requires |s| > 0 && s[0] < 0x80
    ensures LebDecode(s) == Some((s[0] % 0x80, 1))
  {
  }

  /**
   * A LEB128 byte with bit 7 set contributes its group at `bits` and the
   * rest of the groups from `bits + 7` on.
   */
  lemma GroupStep(s: seq<u8>, bits: nat)
    requires LebDecode(s).Some? && s[0] >= 0x80
    ensures LebDecode(s[1..]).Some?
    ensures Pow2(bits) * LebDecode(s).value.0 == (s[0] % 0x80) * Pow2(bits) + Pow2(bits + 7) * LebDecode(s[1..]).value.0
    ensures LebDecode(s).value.1 == LebDecode(s[1..]).value.1 + 1
  {
    GroupShift(s[0] % 0x80, LebDecode(s[1..]).value.0, bits);
  }

  /** `encode(input, r)`: the first byte by `r`, then the group loop. */
  method EncodeVle(input: u64, r: nat) returns (out: seq<u8>)
    requires r <= 8
    ensures out == Encode(input, r)
  {
    if input == 0 {
      return if r == 1 then [0, 0] else [0];
    }
    var value: nat := input;
    out := [];
    if r > 0 {
      out, value := FirstGroup(input, r);
    }
    if value == 0 {
      return;
    }
    out := PushGroups(value, out);
  }

  /**
   * The part of `encode` that depends on `r`: the first byte (and for r = 1
   * the closing zero byte when nothing is left), and the value that the
   * group loop still has to write.
   */
  method FirstGroup(input: nat, r: nat) returns (head: seq<u8>, value: nat)
    requires 1 <= r <= 8
    ensures head + (if value == 0 then [] else Leb(value)) == Encode(input, r)
  {
    if r == 1 {
      var val := input % 2;
      value := input / 2;
      head := [val];
      if value == 0 {
        head := head + [0];
      }
      OneBitShape(input);
    } else {
      var first;
      first, value := WideFirst(input, r);
      head := [first];
      WideShape(input, r);
    }
  }

  /**
   * The first byte for r >= 2: the low r-1 bits of `input`, ORed with the
   * continuation flag when anything is left for the group loop.
   */
  method WideFirst(input: nat, r: nat) returns (first: u8, value: nat)
    requires 2 <= r <= 8
    ensures value == input / FirstFlag(r)
    ensures first == input % FirstFlag(r) + (if value != 0 then FirstFlag(r) else 0)
  {
    var continuousFlag := FirstFlag(r);
    DivMod(input, continuousFlag);
    var val := input % continuousFlag;
    value := input / continuousFlag;
    var flag := 0;
    if value != 0 {
      flag := continuousFlag;
      DivModUnique(flag, continuousFlag, 1, 0);
    } else {
      DivModUnique(flag, continuousFlag, 0, 0);
    }
    first := BitOr(val, flag, r - 1);
  }

  /** How `Encode` splits `v` for a one-bit first byte. */
  lemma OneBitShape(v: nat)
    ensures v / 2 == 0 ==> Encode(v, 1) == [v % 2, 0]
    ensures v / 2 != 0 ==> Encode(v, 1) == [v % 2] + Leb(v / 2)
  {
  }

  /** `decode(input, r)`: the `u64` value and the number of bytes read. */
  method DecodeVle(input: seq<u8>, r: nat) returns (value: nat, len: nat)
    requires r <= 8 && DecodeU64(input, r).Some?
    ensures (value, len) == DecodeU64(input, r).value
  {
    var result := 0;
    var bits := 0;
    var index := 0;
    if r == 1 {
      result := input[0] % 2;
      bits := 1;
      index := index + 1;
    } else if r > 0 {
      var validateBits := r - 1;
      var continuousFlag := FirstFlag(r);
      result := input[0] % continuousFlag;
      if (input[0] / continuousFlag) % 2 == 0 {
        KeepsBelow64(result, 8);
        return result, index + 1;
      }
      bits := validateBits;
      index := index + 1;
    }
    assert input[index..] == if r == 0 then input else input[1..];
    var last;
    value, last := ReadGroups(input, result, bits, index);
    len := last + 1;
  }

  // ---------------------------------------------------------------------
  // The source's own test vectors
  // ---------------------------------------------------------------------

  lemma Vectors()
    ensures Encode(0xE_A9AC, 6) == [0x2C, 0xCD, 0xEA, 0x01]
    ensures Encode(0x7_54D, 0) == [0xCD, 0xEA, 0x01]
    ensures Encode(0x6A9A, 1) == [0x00, 0xCD, 0x6A]
    ensures Encode(1, 1) == [0x01, 0x00]
  {
    assert FirstFlag(6) == 32;
    WideShape(0xE_A9AC, 6);
    assert Encode(0xE_A9AC, 6) == [0x2C] + Leb(0x754D);
  }

  /**
   * Ten bytes of all-ones groups: `decode` on `u64` cuts the exact 70-bit
   * value to `u64::MAX`.
   */
  lemma WrapVector()
    ensures Decode([0xFF, 0xFF, 0xFF, 0xFF, 0xFF, 0xFF, 0xFF, 0xFF, 0xFF, 0x7F], 0)
         == Some((0x3F_FFFF_FFFF_FFFF_FFFF, 10))
    ensures DecodeU64([0xFF, 0xFF, 0xFF, 0xFF, 0xFF, 0xFF, 0xFF, 0xFF, 0xFF, 0x7F], 0)
         == Some((0xFFFF_FFFF_FFFF_FFFF, 10))
  {
    var s := [0xFF, 0xFF, 0xFF, 0xFF, 0xFF, 0xFF, 0xFF, 0xFF, 0xFF, 0x7F];
    assert LebDecode(s[9..]) == Some((0x7F, 1));
    assert LebDecode(s[8..]) == Some((0x3FFF, 2));
    assert LebDecode(s[7..]) == Some((0x1F_FFFF, 3));
    assert LebDecode(s[6..]) == Some((0xFFF_FFFF, 4));
    assert LebDecode(s[5..]) == Some((0x7_FFFF_FFFF, 5));
    assert LebDecode(s[4..]) == Some((0x3FF_FFFF_FFFF, 6));
    assert LebDecode(s[3..]) == Some((0x1_FFFF_FFFF_FFFF, 7));
    assert LebDecode(s[2..]) == Some((0xFF_FFFF_FFFF_FFFF, 8));
    assert LebDecode(s[1..]) == Some((0x7FFF_FFFF_FFFF_FFFF, 9));
  }

  /** Eleven bytes would shift the last group by 70: no `u64` reading. */
  lemma OverlongVector()
    ensures DecodeU64([0xFF, 0xFF, 0xFF, 0xFF, 0xFF, 0xFF, 0xFF, 0xFF, 0xFF, 0xFF, 0x00], 0) == None
  {
    var t := [0xFF, 0xFF, 0xFF, 0xFF, 0xFF, 0xFF, 0xFF, 0xFF, 0xFF, 0xFF, 0x00];
    assert LebDecode(t[10..]) == Some((0, 1));
    assert LebDecode(t[9..]).value.1 == 2;
    assert LebDecode(t[8..]).value.1 == 3;
    assert LebDecode(t[7..]).value.1 == 4;
    assert LebDecode(t[6..]).value.1 == 5;
    assert LebDecode(t[5..]).value.1 == 6;
    assert LebDecode(t[4..]).value.1 == 7;
    assert LebDecode(t[3..]).value.1 == 8;
    assert LebDecode(t[2..]).value.1 == 9;
    assert LebDecode(t[1..]).value.1 == 10;
  }
}
