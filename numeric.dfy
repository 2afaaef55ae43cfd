/**
 * What the four numeric token codecs of src/all_ascii/ share: an encoder
 * ORs tag bits (the `11` token marker at bits 6-7, a sign bit, a decimal
 * flag or a decimal-place count) into the first byte of a VLE encoding, in
 * bits that the chosen first-byte width leaves free; a decoder reads back a
 * sign, a value, a number of decimal places and a length, and renders them
 * as ASCII.
 */
module Numeric {
  import opened Bytes
  import opened Vle
  import opened Digits

  /** `NUMERICAL_HOLDER_FLAG`: top bits 11 mark a numeric token. */
  const NUMERICAL_HOLDER_FLAG: nat := 0xC0

  /** What a decoder reads from the front of its input. */
  datatype Reading = Reading(negative: bool, value: nat, places: nat, len: nat)

  /** The ASCII a decoder appends for a reading. */
  function Text(r: Reading): seq<u8>
  {
    (if r.negative then [MINUS] else []) + Rendered(r.value, r.places)
  }

  /**
   * A decoder's output: the sign pushed first, when there is one, then the
   * rendered value.
   */
  lemma SignThenDigits(out0: seq<u8>, sign: seq<u8>, r: Reading)
    requires sign == out0 + (if r.negative then [MINUS] else [])
    ensures sign + Rendered(r.value, r.places) == out0 + Text(r)
  {
  }

  /** `encoded` with `tag` ORed into its first byte (`encoded[0] |= tag`). */
  function Tagged(encoded: seq<u8>, tag: nat): (t: seq<u8>)
    requires |encoded| >= 1 && encoded[0] + tag < 0x100
    ensures |t| == |encoded|
  {
    encoded[0 := encoded[0] + tag]
  }

  /**
   * `encoded[0] |= tag` where the tag leaves the `r` low bits clear and the
   * first byte lies within them: the bits do not collide, so the OR adds.
   */
  method SetTag(encoded: seq<u8>, tag: nat, r: nat) returns (tagged: seq<u8>)
    requires |encoded| >= 1 && encoded[0] < Pow2(r) && tag % Pow2(r) == 0
    requires encoded[0] + tag < 0x100
    ensures tagged == Tagged(encoded, tag)
  {
    var first := BitOr(encoded[0], tag, r);
    tagged := encoded[0 := first];
  }

  /**
   * A tag above the first `r` bits is invisible to `decode(·, r)`: a tagged
   * encoding of a `u64`, followed by anything, still decodes on `u64` to
   * the value and its full length.
   */
  lemma {:induction false} TaggedRoundTrip(v: u64, r: nat, t: nat, rest: seq<u8>)
    requires 1 <= r <= 8 && Encode(v, r)[0] + t * Pow2(r) < 0x100
    ensures Encode(v, r)[0] < Pow2(r)
    ensures DecodeU64(Tagged(Encode(v, r), t * Pow2(r)) + rest, r) == Some((v, |Encode(v, r)|))
  {
    FirstByte(v, r);
    RoundTripU64(v, r, rest);
    TagInvisible(Encode(v, r), t, rest, r);
  }

  lemma {:induction false} TagInvisible(e: seq<u8>, t: nat, rest: seq<u8>, r: nat)
    requires 1 <= r <= 8 && |e| >= 1 && e[0] < Pow2(r) && e[0] + t * Pow2(r) < 0x100
    ensures Decode(Tagged(e, t * Pow2(r)) + rest, r) == Decode(e + rest, r)
  {
    var tail := e[1..] + rest;
    assert Tagged(e, t * Pow2(r)) + rest == [e[0] + t * Pow2(r)] + tail;
    assert e + rest == [e[0]] + tail;
    IgnoresHighBits(e[0], t, tail, r);
  }

  /** `x / 2^k` for a tag `x` in the high bits of a byte over a low field. */
  lemma HighBits(low: nat, t: nat, k: nat)
    requires low < Pow2(k)
    ensures (low + t * Pow2(k)) / Pow2(k) == t
    ensures (low + t * Pow2(k)) % Pow2(k) == low
  {
    DivModUnique(low + t * Pow2(k), Pow2(k), t, low);
  }
}
