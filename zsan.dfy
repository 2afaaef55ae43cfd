/**
 * src/zsan.rs, decompression side: the first byte of a compressed record
 * names the mode.  0xA0 means every original byte was ASCII, so each byte
 * with top bits 11 is a count byte and every other byte is text; 0x20 means
 * the record had non-ASCII bytes, so runs are a 0x20 marker and 255-based
 * counts.  Any other header, or an empty input, produces nothing.
 */
module Zsan {
  import opened Bytes
  import SpaceAllAscii
  import SpaceNonAscii

  /** `HEADER_MODE_NON_ASCII`. */
  const HEADER_MODE_NON_ASCII: nat := 0x20
  /** `HEADER_MODE_ALL_ASCII`. */
  const HEADER_MODE_ALL_ASCII: nat := 0xA0

  // ---------------------------------------------------------------------
  // Specification
  // ---------------------------------------------------------------------

  /** The bytes `decompress` appends for `input`. */
  function Decompressed(input: seq<u8>): seq<u8>
  {
    if |input| == 0 then []
    else if input[0] == HEADER_MODE_ALL_ASCII then SpaceAllAscii.Expand(input[1..])
    else if input[0] == HEADER_MODE_NON_ASCII then SpaceNonAscii.Decoded(input[1..], false)
    else []
  }

  // ---------------------------------------------------------------------
  // The source's functions
  // ---------------------------------------------------------------------

  /**
   * `decompress`: nothing for an empty input, otherwise the decoder the
   * header selects runs on the bytes after it; an unknown header is
   * reported on standard error and nothing is appended.
   */
  method Decompress(input: seq<u8>, out0: seq<u8>) returns (out: seq<u8>)
    ensures out == out0 + Decompressed(input)
  {
    if |input| == 0 {
      return out0;
    }
    var header := input[0];
    var data := input[1..];
    if header == HEADER_MODE_ALL_ASCII {
      out := DecodeAllAscii(data, out0);
    } else if header == HEADER_MODE_NON_ASCII {
      out := SpaceNonAscii.DecodeSpaces(data, out0);
    } else {
      out := out0;
    }
  }

  /**
   * `decode_all_ascii`: a count byte becomes its spaces, any other byte is
   * pushed as it is, in input order.
   */
  method DecodeAllAscii(input: seq<u8>, out0: seq<u8>) returns (out: seq<u8>)
    ensures out == out0 + SpaceAllAscii.Expand(input)
  {
    out := out0;
    for i := 0 to |input|
      invariant out == out0 + SpaceAllAscii.Expand(input[..i])
    {
      var val := input[i];
      assert input[..i + 1][..i] == input[..i];
      if SpaceAllAscii.IsSpaceChar(val) {
        out := SpaceAllAscii.DecodeSpaces(val, out);
      } else {
        out := out + [val];
      }
    }
    assert input[..|input|] == input;
  }

  // ---------------------------------------------------------------------
  // What the space encoders lay out, and reading it back
  // ---------------------------------------------------------------------

  /** A piece of a record: bytes kept as they are, or a run of spaces. */
  datatype Segment = Text(bytes: seq<u8>) | Run(count: nat)

  /** The record the segments stand for. */
  function Plain(segs: seq<Segment>): seq<u8>
  {
    if |segs| == 0 then []
    else
      (match segs[0]
       case Text(p) => p
       case Run(n) => Spaces(n)) + Plain(segs[1..])
  }

  /** The body of an all-ASCII record: text verbatim, runs as count bytes. */
  function AllAsciiBody(segs: seq<Segment>): seq<u8>
  {
    if |segs| == 0 then []
    else
      (match segs[0]
       case Text(p) => p
       case Run(n) => SpaceAllAscii.Code(n)) + AllAsciiBody(segs[1..])
  }

  /** The body of a non-ASCII record: text verbatim, runs as marker and counts. */
  function NonAsciiBody(segs: seq<Segment>): seq<u8>
  {
    if |segs| == 0 then []
    else
      (match segs[0]
       case Text(p) => p
       case Run(n) => SpaceNonAscii.Code(n)) + NonAsciiBody(segs[1..])
  }

  /** Every text byte is ASCII, as the all-ASCII mode requires. */
  predicate AsciiText(segs: seq<Segment>)
  {
    forall i, k :: 0 <= i < |segs| && segs[i].Text? && 0 <= k < |segs[i].bytes| ==> segs[i].bytes[k] < 0x80
  }

  /** No text byte is a space: every space is inside a run. */
  predicate SpaceFreeText(segs: seq<Segment>)
  {
    forall i, k :: 0 <= i < |segs| && segs[i].Text? && 0 <= k < |segs[i].bytes| ==> segs[i].bytes[k] != SPACE
  }

  /** Round trip of the all-ASCII mode: the header and the body give the record back. */
  lemma {:induction false} AllAsciiRoundTrip(segs: seq<Segment>)
    requires AsciiText(segs)
    ensures Decompressed([HEADER_MODE_ALL_ASCII as u8] + AllAsciiBody(segs)) == Plain(segs)
  {
    AllAsciiExpand(segs);
    var input := [HEADER_MODE_ALL_ASCII as u8] + AllAsciiBody(segs);
    assert input[1..] == AllAsciiBody(segs);
  }

  lemma {:induction false} AllAsciiExpand(segs: seq<Segment>)
    requires AsciiText(segs)
    ensures SpaceAllAscii.Expand(AllAsciiBody(segs)) == Plain(segs)
  {
    if |segs| > 0 {
      var rest := segs[1..];
      assert AsciiText(rest) by {
        forall i, k | 0 <= i < |rest| && rest[i].Text? && 0 <= k < |rest[i].bytes|
          ensures rest[i].bytes[k] < 0x80
        {
          assert rest[i] == segs[i + 1];
        }
      }
      AllAsciiExpand(rest);
      match segs[0]
      case Text(p) =>
        assert forall k :: 0 <= k < |p| ==> p[k] < 0x80 by {
          assert segs[0].Text?;
        }
        SpaceAllAscii.ExpandAppend(p, AllAsciiBody(rest));
        SpaceAllAscii.AsciiUnchanged(p);
      case Run(n) =>
        SpaceAllAscii.ExpandAppend(SpaceAllAscii.Code(n), AllAsciiBody(rest));
        SpaceAllAscii.CodeRoundTrip(n);
    }
  }

  /** Round trip of the non-ASCII mode: the header and the body give the record back. */
  lemma {:induction false} NonAsciiRoundTrip(segs: seq<Segment>)
    requires SpaceFreeText(segs)
    ensures Decompressed([HEADER_MODE_NON_ASCII as u8] + NonAsciiBody(segs)) == Plain(segs)
  {
    NonAsciiDecoded(segs);
    var input := [HEADER_MODE_NON_ASCII as u8] + NonAsciiBody(segs);
    assert input[1..] == NonAsciiBody(segs);
  }

  lemma {:induction false} NonAsciiDecoded(segs: seq<Segment>)
    requires SpaceFreeText(segs)
    ensures SpaceNonAscii.Decoded(NonAsciiBody(segs), false) == Plain(segs)
  {
    if |segs| > 0 {
      var rest := segs[1..];
      assert SpaceFreeText(rest) by {
        forall i, k | 0 <= i < |rest| && rest[i].Text? && 0 <= k < |rest[i].bytes|
          ensures rest[i].bytes[k] != SPACE
        {
          assert rest[i] == segs[i + 1];
        }
      }
      NonAsciiDecoded(rest);
      match segs[0]
      case Text(p) =>
        assert forall k :: 0 <= k < |p| ==> p[k] != SPACE by {
          assert segs[0].Text?;
        }
        SpaceNonAscii.PlainCopied(p, NonAsciiBody(rest));
      case Run(n) =>
        SpaceNonAscii.CodeRoundTrip(n, NonAsciiBody(rest));
    }
  }

  /**
   * The cases the source's tests fix: no input, a header alone and an
   * unknown header all give nothing.
   */
  lemma NothingToDecode(header: u8)
    requires header != HEADER_MODE_ALL_ASCII && header != HEADER_MODE_NON_ASCII
    ensures Decompressed([]) == []
    ensures Decompressed([HEADER_MODE_ALL_ASCII as u8]) == [] && Decompressed([HEADER_MODE_NON_ASCII as u8]) == []
    ensures forall rest :: Decompressed([header] + rest) == []
  {
    assert [HEADER_MODE_ALL_ASCII as u8][1..] == [];
    assert [HEADER_MODE_NON_ASCII as u8][1..] == [];
  }

  /** The source's vector for the all-ASCII mode: "   a      ". */
  lemma AllAsciiVector()
    ensures Decompressed([0xA0, 0xC3, 0x61, 0xC6]) == Spaces(3) + [0x61] + Spaces(6)
  {
    var a := [Run(3), Text([0x61]), Run(6)];
    AllAsciiVectorBody(a);
    AllAsciiRoundTrip(a);
    assert Plain(a) == Spaces(3) + [0x61] + Spaces(6) by {
      assert Plain(a[2..]) == Spaces(6);
      assert Plain(a[1..]) == [0x61] + Spaces(6);
    }
  }

  lemma AllAsciiVectorBody(a: seq<Segment>)
    requires a == [Run(3), Text([0x61]), Run(6)]
    ensures AsciiText(a) && AllAsciiBody(a) == [0xC3, 0x61, 0xC6]
  {
    assert SpaceAllAscii.Code(3) == [0xC3] && SpaceAllAscii.Code(6) == [0xC6];
    assert AllAsciiBody(a[2..]) == [0xC6];
    assert AllAsciiBody(a[1..]) == [0x61, 0xC6];
  }

  /** The example of the non-ASCII mode: "A", 300 spaces and "B". */
  lemma NonAsciiVector()
    ensures Decompressed([0x20, 0x41, 0x20, 0xFF, 45, 0x42]) == [0x41] + Spaces(300) + [0x42]
  {
    var b := [Text([0x41]), Run(300), Text([0x42])];
    NonAsciiVectorBody(b);
    NonAsciiRoundTrip(b);
    assert Plain(b) == [0x41] + Spaces(300) + [0x42] by {
      assert Plain(b[2..]) == [0x42];
      assert Plain(b[1..]) == Spaces(300) + [0x42];
    }
  }

  lemma NonAsciiVectorBody(b: seq<Segment>)
    requires b == [Text([0x41]), Run(300), Text([0x42])]
    ensures SpaceFreeText(b) && NonAsciiBody(b) == [0x41, 0x20, 0xFF, 45, 0x42]
  {
    SpaceNonAscii.Vectors();
    assert NonAsciiBody(b[2..]) == [0x42];
    assert NonAsciiBody(b[1..]) == [0x20, 0xFF, 45, 0x42];
  }
}
