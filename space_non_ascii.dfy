/**
 * src/zsan/space_has_non_ascii.rs: the space codec of the older mode for
 * text with non-ASCII bytes.  A run of spaces becomes a 0x20 marker followed
 * by count bytes of up to 255 each; a count byte below 255 closes the run,
 * so the last one is written even when it is 0.
 */
module SpaceNonAscii {
  import opened Bytes

  /** `SIMPLE_COMPRESS_MAX_SPACE_COUNT` (`u8::MAX`). */
  const SIMPLE_COMPRESS_MAX_SPACE_COUNT: nat := 0xFF

  // ---------------------------------------------------------------------
  // Specification
  // ---------------------------------------------------------------------

  /** The bytes `encode_spaces_mode_non_ascii` appends for `count` spaces. */
  function Code(count: nat): (s: seq<u8>)
    ensures |s| == 2 + count / 255
  {
    [SPACE] + Repeat(0xFF, count / 255) + [count % 255]
  }

  /**
   * The text the decoder's state machine produces for `input` when it
   * starts with `has_space` equal to `inRun`: outside a run a 0x20 opens a
   * run and every other byte is copied; inside a run each byte `v` stands
   * for `v` spaces, and the run stays open only after a 255.
   */
  function Decoded(input: seq<u8>, inRun: bool): seq<u8>
  {
    if |input| == 0 then []
    else if inRun then Spaces(input[0]) + Decoded(input[1..], !(input[0] < SIMPLE_COMPRESS_MAX_SPACE_COUNT))
    else if input[0] != SPACE then [input[0]] + Decoded(input[1..], false)
    else Decoded(input[1..], true)
  }

  // ---------------------------------------------------------------------
  // The source's functions
  // ---------------------------------------------------------------------

  /**
   * `encode_spaces_mode_non_ascii`: the marker, the full count bytes with
   * one resize, the remainder (always), then `*count` is reset.
   */
  method EncodeSpaces(count0: nat, out0: seq<u8>) returns (count: nat, out: seq<u8>)
    ensures count == 0
    ensures out == out0 + Code(count0)
  {
    out := out0 + [SPACE];
    var times := count0 / SIMPLE_COMPRESS_MAX_SPACE_COUNT;
    var remainder := count0 % SIMPLE_COMPRESS_MAX_SPACE_COUNT;
    if times > 0 {
      out := out + Repeat(0xFF, times);
    }
    out := out + [remainder];
    count := 0;
  }

  /** `decode_spaces_mode_non_ascii`: one pass with the `has_space` flag. */
  method DecodeSpaces(input: seq<u8>, out0: seq<u8>) returns (out: seq<u8>)
    ensures out == out0 + Decoded(input, false)
  {
    out := out0;
    var hasSpace := false;
    var i := 0;
    while i < |input|
      invariant i <= |input|
      invariant out + Decoded(input[i..], hasSpace) == out0 + Decoded(input, false)
    {
      var val := input[i];
      assert input[i..][1..] == input[i + 1..];
      if hasSpace {
        out := out + Spaces(val);
        if val < SIMPLE_COMPRESS_MAX_SPACE_COUNT {
          hasSpace := false;
        }
      } else if val != SPACE {
        out := out + [val];
      } else {
        hasSpace := true;
      }
      i := i + 1;
    }
    assert input[i..] == [];
  }

  // ---------------------------------------------------------------------
  // Properties
  // ---------------------------------------------------------------------

  /** Outside a run, bytes other than 0x20 are copied through unchanged. */
  lemma {:induction false} PlainCopied(p: seq<u8>, rest: seq<u8>)
    requires forall i :: 0 <= i < |p| ==> p[i] != SPACE
    ensures Decoded(p + rest, false) == p + Decoded(rest, false)
  {
    if |p| > 0 {
      assert (p + rest)[1..] == p[1..] + rest;
      PlainCopied(p[1..], rest);
      assert p == [p[0]] + p[1..];
    } else {
      assert p + rest == rest;
    }
  }

  /**
   * Inside a run, `k` bytes of 255 and a final byte `r` below 255 give
   * `255 * k + r` spaces and close the run.
   */
  lemma {:induction false} RunDecoded(k: nat, r: u8, rest: seq<u8>)
    requires r < 255
    ensures Decoded(Repeat(0xFF, k) + [r] + rest, true) == Spaces(255 * k + r) + Decoded(rest, false)
  {
    var s := Repeat(0xFF, k) + [r] + rest;
    if k == 0 {
      assert s == [r] + rest;
      assert s[1..] == rest;
    } else {
      assert Repeat(0xFF, k) == [0xFF] + Repeat(0xFF, k - 1) by {
        RepeatAppend(0xFF, 1, k - 1);
      }
      assert s[1..] == Repeat(0xFF, k - 1) + [r] + rest;
      RunDecoded(k - 1, r, rest);
      RepeatAppend(SPACE, 255, 255 * (k - 1) + r);
    }
  }

  /**
   * Round trip: the bytes appended for `count`, followed by anything, read
   * back as `count` spaces and leave the decoder outside a run.
   */
  lemma CodeRoundTrip(count: nat, rest: seq<u8>)
    ensures Decoded(Code(count) + rest, false) == Spaces(count) + Decoded(rest, false)
  {
    var s := Code(count) + rest;
    assert s[1..] == Repeat(0xFF, count / 255) + [count % 255] + rest;
    RunDecoded(count / 255, count % 255, rest);
  }

  /** Decoding `p ++ encode(n)` gives `p` and `n` spaces when `p` has no 0x20. */
  lemma PrefixRoundTrip(p: seq<u8>, count: nat)
    requires forall i :: 0 <= i < |p| ==> p[i] != SPACE
    ensures Decoded(p + Code(count), false) == p + Spaces(count)
  {
    PlainCopied(p, Code(count));
    CodeRoundTrip(count, []);
    assert Code(count) + [] == Code(count);
  }

  /** The examples in the encoder's documentation. */
  lemma Vectors()
    ensures Code(300) == [SPACE, 0xFF, 45]
    ensures Code(255) == [SPACE, 0xFF, 0]
  {
    assert Repeat(0xFF, 1) == [0xFF];
  }
}
