/**
 * src/all_ascii/space.rs: a run of spaces becomes bytes tagged 10 in bits
 * 6-7 whose low six bits count 1..63 spaces; a run longer than 63 takes
 * several such bytes.  A single space is meant to stay a literal ' '.
 */
module Space {
  import opened Bytes

  /** `MAX_COUNT_PER_BYTE` (and `SPACE_OUNT_MASK`): six bits of count. */
  const MAX_COUNT_PER_BYTE: nat := 0x3F
  /** `SPACE_HOLDER_FLAG`: top bits 10 mark a space-count byte. */
  const SPACE_HOLDER_FLAG: nat := 0x80

  /** The tagged bytes for `count` spaces: full bytes of 63, then the rest. */
  function Runs(count: nat): (s: seq<u8>)
    ensures |s| == count / 63 + (if count % 63 > 0 then 1 else 0)
  {
    Repeat(MAX_COUNT_PER_BYTE + SPACE_HOLDER_FLAG, count / 63) + Remainder(count % 63)
  }

  /** The tagged byte for the remainder of a run, when there is one. */
  function Remainder(m: nat): (s: seq<u8>)
    requires m < 63
    ensures |s| == if m > 0 then 1 else 0
  {
    if m > 0 then [m + SPACE_HOLDER_FLAG] else []
  }

  /**
   * What `compress_space` appends as written: for a count of 1 the literal
   * space is pushed and then, with no early return, the run byte 0x81 too.
   */
  function SpaceCode(count: nat): seq<u8>
  {
    (if count == 1 then [SPACE] else []) + Runs(count)
  }

  /** What the literal-space branch evidently intends: ' ' alone for 1. */
  function SpaceCodeIntended(count: nat): seq<u8>
  {
    if count == 1 then [SPACE] else Runs(count)
  }

  /** A space-count byte: tag bits 10 and a count of 1..63. */
  predicate IsRunByte(b: u8)
  {
    b / 0x40 == 2 && 1 <= b % 0x40 <= 63
  }

  /**
   * Reading bytes back as text: a byte with bit 7 set stands for its low
   * six bits' worth of spaces (`decompress_space`), any other byte is
   * itself.
   */
  function Expand(s: seq<u8>): seq<u8>
  {
    if |s| == 0 then []
    else Expand(s[..|s| - 1]) + (if s[|s| - 1] >= 0x80 then Spaces(s[|s| - 1] % 0x40) else [s[|s| - 1]])
  }

  /** `compress_space` as written. */
  method CompressSpace(count: nat, out0: seq<u8>) returns (out: seq<u8>)
    ensures out == out0 + SpaceCode(count)
  {
    out := out0;
    if count == 1 {
      out := out + [SPACE];
    }
    var numFullChunks := count / MAX_COUNT_PER_BYTE;
    var remainderCount := count % MAX_COUNT_PER_BYTE;
    if numFullChunks > 0 {
      out := out + Repeat(MAX_COUNT_PER_BYTE + SPACE_HOLDER_FLAG, numFullChunks);
    }
    if remainderCount > 0 {
      Pow2Small();
      var b := BitOr(remainderCount, SPACE_HOLDER_FLAG, 7);
      out := out + [b];
    }
  }

  /** `compress_space` with the literal-space branch returning early. */
  method CompressSpaceIntended(count: nat, out0: seq<u8>) returns (out: seq<u8>)
    ensures out == out0 + SpaceCodeIntended(count)
  {
    if count == 1 {
      out := out0 + [SPACE];
      return;
    }
    out := out0;
    var numFullChunks := count / MAX_COUNT_PER_BYTE;
    var remainderCount := count % MAX_COUNT_PER_BYTE;
    if numFullChunks > 0 {
      out := out + Repeat(MAX_COUNT_PER_BYTE + SPACE_HOLDER_FLAG, numFullChunks);
    }
    if remainderCount > 0 {
      Pow2Small();
      var b := BitOr(remainderCount, SPACE_HOLDER_FLAG, 7);
      out := out + [b];
    }
  }

  /**
   * `decompress_space`: appends as many spaces as the byte's low six bits
   * say and returns that count.
   */
  method DecompressSpace(input: u8, out0: seq<u8>) returns (out: seq<u8>, count: nat)
    ensures count == input % 0x40 && count <= MAX_COUNT_PER_BYTE
    ensures out == out0 + Spaces(count)
  {
    var spaceCount := input % 0x40;
    out := out0 + Spaces(spaceCount);
    count := spaceCount;
  }

  // ---------------------------------------------------------------------
  // Properties
  // ---------------------------------------------------------------------

  /** Every byte of a run is tagged 10 and carries 1..63 spaces. */
  lemma RunsTagged(count: nat)
    ensures forall i :: 0 <= i < |Runs(count)| ==> IsRunByte(Runs(count)[i])
  {
    var full := Repeat(MAX_COUNT_PER_BYTE + SPACE_HOLDER_FLAG, count / 63);
    assert forall i :: 0 <= i < |full| ==> IsRunByte(full[i]);
  }

  lemma {:induction false} ExpandAppend(a: seq<u8>, b: seq<u8>)
    ensures Expand(a + b) == Expand(a) + Expand(b)
  {
    if |b| > 0 {
      assert (a + b)[..|a + b| - 1] == a + b[..|b| - 1];
      ExpandAppend(a, b[..|b| - 1]);
    } else {
      assert a + b == a;
    }
  }

  lemma {:induction false} ExpandFull(k: nat)
    ensures Expand(Repeat(MAX_COUNT_PER_BYTE + SPACE_HOLDER_FLAG, k)) == Spaces(63 * k)
  {
    if k > 0 {
      var r := Repeat(MAX_COUNT_PER_BYTE + SPACE_HOLDER_FLAG, k);
      var front := Repeat(MAX_COUNT_PER_BYTE + SPACE_HOLDER_FLAG, k - 1);
      assert r == front + [0xBF];
      assert r[..k - 1] == front;
      assert Expand(r) == Expand(front) + Spaces(63);
      ExpandFull(k - 1);
      RepeatAppend(SPACE, 63 * (k - 1), 63);
    }
  }

  lemma ExpandRemainder(m: nat)
    requires m < 63
    ensures Expand(Remainder(m)) == Spaces(m)
  {
    if m > 0 {
      assert Remainder(m)[..0] == [];
    }
  }

  /** The run bytes for `count` read back as exactly `count` spaces. */
  lemma RunsExpand(count: nat)
    ensures Expand(Runs(count)) == Spaces(count)
  {
    var k, m := count / 63, count % 63;
    ExpandAppend(Repeat(MAX_COUNT_PER_BYTE + SPACE_HOLDER_FLAG, k), Remainder(m));
    ExpandFull(k);
    ExpandRemainder(m);
    RepeatAppend(SPACE, 63 * k, m);
    assert 63 * k + m == count;
  }

  /**
   * Apart from a single space, the codes read back as the count: 0 spaces
   * give nothing, and every byte is a tagged run byte.
   */
  lemma SpaceCodeRoundTrip(count: nat)
    requires count != 1
    ensures SpaceCode(count) == Runs(count)
    ensures Expand(SpaceCode(count)) == Spaces(count)
    ensures count == 0 ==> SpaceCode(count) == []
  {
    RunsExpand(count);
  }

  /**
   * As written, one space is encoded as the literal ' ' followed by the
   * run byte 0x81, which read back gives two spaces.
   */
  lemma SpaceCodeOneIsTwoSpaces()
    ensures SpaceCode(1) == [SPACE, 0x81]
    ensures Expand(SpaceCode(1)) == Spaces(2)
  {
    assert Runs(1) == [0x81] by {
      assert Repeat(0xBF, 0) == [];
    }
    var code: seq<u8> := [SPACE, 0x81];
    assert code[..1] == [SPACE] && code[..1][..0] == [];
    assert Expand([SPACE]) == [SPACE];
    assert Expand(code) == Expand([SPACE]) + Spaces(1);
    assert [SPACE] + Spaces(1) == Spaces(2);
  }

  /** With the early return every count, 1 included, reads back exactly. */
  lemma SpaceCodeIntendedRoundTrip(count: nat)
    ensures Expand(SpaceCodeIntended(count)) == Spaces(count)
  {
    if count == 1 {
      assert Expand([SPACE]) == Expand([]) + [SPACE];
    } else {
      RunsExpand(count);
    }
  }

  /** `Expand` reads one more byte at a time. */
  lemma ExpandStep(s: seq<u8>, i: nat)
    requires i < |s|
    ensures Expand(s[..i + 1]) == Expand(s[..i]) + (if s[i] >= 0x80 then Spaces(s[i] % 0x40) else [s[i]])
  {
    assert s[..i + 1][..i] == s[..i];
  }

  /** The source's test vector: 65 spaces are one full byte and a 2. */
  lemma Vector()
    ensures SpaceCode(65) == [0xBF, 0x82]
  {
    assert Repeat(0xBF, 1) == [0xBF];
  }

  /**
   * The source's test: compress 65 (any count but 1) spaces, feed every
   * byte to `decompress_space` in order, and get the spaces back.
   */
  method SpaceRoundTrip(count: nat) returns (text: seq<u8>)
    requires count != 1
    ensures text == Spaces(count)
  {
    var out := CompressSpace(count, []);
    RunsTagged(count);
    SpaceCodeRoundTrip(count);
    assert out == Runs(count);
    text := [];
    var i := 0;
    while i < |out|
      invariant 0 <= i <= |out|
      invariant text == Expand(out[..i])
    {
      var n;
      assert IsRunByte(out[i]);
      text, n := DecompressSpace(out[i], text);
      ExpandStep(out, i);
      i := i + 1;
    }
    assert out[..|out|] == out;
  }
}
