/**
 * src/zsan/space_all_ascii.rs: the space codec of the older all-ASCII mode.
 * A run of spaces becomes count bytes whose two top bits are 11 and whose
 * low six bits count 1..63 spaces.  Every ASCII byte is below 0x80, so in
 * this mode no text byte can be mistaken for a count byte.
 */
module SpaceAllAscii {
  import opened Bytes

  /** `MAX_COUNT_PER_BYTE` (and `SPACE_OUNT_MASK`): six bits of count. */
  const MAX_COUNT_PER_BYTE: nat := 0x3F
  /** `SPACE_COUNT_FLAG_ALL_ASCII`: top bits 11 mark a count byte. */
  const SPACE_COUNT_FLAG_ALL_ASCII: nat := 0xC0

  // ---------------------------------------------------------------------
  // Specification
  // ---------------------------------------------------------------------

  /** The bytes `encode_spaces_mode_all_ascii` appends for `count` spaces. */
  function Code(count: nat): (s: seq<u8>)
    ensures |s| == count / 63 + (if count % 63 > 0 then 1 else 0)
  {
    Repeat(0xFF, count / 63) + Remainder(count % 63)
  }

  /** The count byte for the remainder of a run, when there is one. */
  function Remainder(m: nat): (s: seq<u8>)
    requires m < 63
    ensures |s| == if m > 0 then 1 else 0
  {
    if m > 0 then [m + SPACE_COUNT_FLAG_ALL_ASCII] else []
  }

  /** `is_space_char`: `b & 0xC0` keeps bits 6 and 7, and both must be set. */
  function IsSpaceChar(b: u8): (r: bool)
    ensures r <==> b >= 0xC0
  {
    (b / 0x40) * 0x40 == SPACE_COUNT_FLAG_ALL_ASCII
  }

  /**
   * How the all-ASCII decoder reads one byte: a count byte stands for its
   * low six bits' worth of spaces, any other byte for itself.
   */
  function ByteText(b: u8): seq<u8>
  {
    if IsSpaceChar(b) then Spaces(b % 0x40) else [b]
  }

  /** The text a sequence of all-ASCII-mode bytes reads back as, in order. */
  function Expand(s: seq<u8>): seq<u8>
  {
    if |s| == 0 then [] else Expand(s[..|s| - 1]) + ByteText(s[|s| - 1])
  }

  // ---------------------------------------------------------------------
  // The source's functions
  // ---------------------------------------------------------------------

  /**
   * `encode_spaces_mode_all_ascii`: appends the full count bytes with one
   * resize and the remainder byte with one push, then resets `*count`.
   */
  method EncodeSpaces(count0: nat, out0: seq<u8>) returns (count: nat, out: seq<u8>)
    ensures count == 0
    ensures out == out0 + Code(count0)
  {
    out := out0;
    var numFullChunks := count0 / MAX_COUNT_PER_BYTE;
    var remainderCount := count0 % MAX_COUNT_PER_BYTE;
    if numFullChunks > 0 {
      var full := BitOr(MAX_COUNT_PER_BYTE, SPACE_COUNT_FLAG_ALL_ASCII, 6);
      out := out + Repeat(full, numFullChunks);
    }
    if remainderCount > 0 {
      var b := BitOr(remainderCount, SPACE_COUNT_FLAG_ALL_ASCII, 6);
      out := out + [b];
    }
    count := 0;
  }

  /** `decode_spaces_in_all_ascii`: appends `input & 0x3F` spaces. */
  method DecodeSpaces(input: u8, out0: seq<u8>) returns (out: seq<u8>)
    requires IsSpaceChar(input)
    ensures out == out0 + ByteText(input)
    ensures |out| == |out0| + input % 0x40
  {
    var spaceCount := input % 0x40;
    out := out0 + Spaces(spaceCount);
  }

  // ---------------------------------------------------------------------
  // Properties
  // ---------------------------------------------------------------------

  /**
   * Every byte appended is a count byte carrying 1..63 spaces, and a count
   * of zero appends nothing.
   */
  lemma CodeBytes(count: nat)
    ensures forall i :: 0 <= i < |Code(count)| ==> IsSpaceChar(Code(count)[i]) && 1 <= Code(count)[i] % 0x40 <= 63
    ensures count == 0 ==> Code(count) == []
  {
  }

  lemma {:induction false} ExpandAppend(a: seq<u8>, b: seq<u8>)
    ensures Expand(a + b) == Expand(a) + Expand(b)
  {
    if |b| > 0 {
      assert (a + b)[..|a + b| - 1] == a + b[..|b| - 1];
      ExpandAppend(a, b[..|b| - 1]);
    } else {
      assert a + b == a;
    }
  }

  lemma {:induction false} ExpandFull(k: nat)
    ensures Expand(Repeat(0xFF, k)) == Spaces(63 * k)
  {
    if k > 0 {
      var r := Repeat(0xFF, k);
      assert r[..k - 1] == Repeat(0xFF, k - 1);
      ExpandFull(k - 1);
      RepeatAppend(SPACE, 63 * (k - 1), 63);
    }
  }

  lemma ExpandRemainder(m: nat)
    requires m < 63
    ensures Expand(Remainder(m)) == Spaces(m)
  {
    if m > 0 {
      assert Remainder(m)[..0] == [];
    }
  }

  /** Decoding the bytes appended for `count`, in order, gives `count` spaces. */
  lemma CodeRoundTrip(count: nat)
    ensures Expand(Code(count)) == Spaces(count)
  {
    var k, m := count / 63, count % 63;
    ExpandAppend(Repeat(0xFF, k), Remainder(m));
    ExpandFull(k);
    ExpandRemainder(m);
    RepeatAppend(SPACE, 63 * k, m);
    assert 63 * k + m == count;
  }

  /** ASCII text is not a count byte anywhere, so it reads back unchanged. */
  lemma {:induction false} AsciiUnchanged(p: seq<u8>)
    requires forall i :: 0 <= i < |p| ==> p[i] < 0x80
    ensures Expand(p) == p
  {
    if |p| > 0 {
      AsciiUnchanged(p[..|p| - 1]);
    }
  }

  /** The source's test vectors. */
  lemma Vectors()
    ensures Code(127) == [0xFF, 0xFF, 0xC1]
    ensures Code(63) == [0xFF]
    ensures Code(62) == [0xFE]
    ensures Expand([0xC3]) == Spaces(3)
  {
    assert Repeat(0xFF, 2) == [0xFF, 0xFF];
    assert Repeat(0xFF, 1) == [0xFF];
    assert [0xC3][..0] == [];
  }
}
