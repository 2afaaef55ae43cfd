/**
 * The hand-specialised VLE codecs of src/vle_variants/: `encode_N` and
 * `decode_N` for N = 4, 5, 6 (one body, written out three times in the
 * source with different constants), `encode_1`/`decode_1` and
 * `encode_0`/`decode_0`.  Each is proved to compute exactly the generic
 * `encode(v, N)` of `Vle`, or its `decode(s, N)` on `u64` (`DecodeU64`),
 * so the round-trip, prefix and first-byte properties proved there carry
 * over unchanged.
 */
module VleFixed {
  import opened Bytes
  import opened Vle

  /**
   * The body shared by `encode_4`, `encode_5` and `encode_6`: the low n-1
   * bits of the input, the continuation flag 2^(n-1) when anything is left,
   * then the 7-bit groups of what is left.
   */
  method EncodeFixed(input: u64, n: nat) returns (out: seq<u8>)
    requires 4 <= n <= 6
    ensures out == Encode(input, n)
    ensures out[0] < Pow2(n)
    ensures |out| == 1 <==> input < Pow2(n - 1)
  {
    var validateBits := n - 1;
    var continuousFlag := FirstFlag(n);
    var value: nat := input;
    var val := input % continuousFlag;
    value := value / continuousFlag;
    WideShape(input, n);
    FirstByte(input, n);
    if value > 0 {
      assert continuousFlag % Pow2(validateBits) == 0 by {
        DivModUnique(continuousFlag, continuousFlag, 1, 0);
      }
      var first := BitOr(val, continuousFlag, validateBits);
      out := PushGroups(value, [first]);
    } else {
      out := [val];
    }
  }

  /**
   * The body shared by `decode_4`, `decode_5` and `decode_6`: one byte when
   * the flag is clear, otherwise the groups that follow it.
   */
  method DecodeFixed(input: seq<u8>, n: nat) returns (value: nat, len: nat)
    requires 4 <= n <= 6 && DecodeU64(input, n).Some?
    ensures (value, len) == DecodeU64(input, n).value
  {
    var continuousFlag := FirstFlag(n);
    var result := input[0] % continuousFlag;
    if (input[0] / continuousFlag) % 2 == 0 {
      KeepsBelow64(result, 8);
      return result, 1;
    }
    var bits := n - 1;
    var index := 1;
    var last;
    value, last := ReadGroups(input, result, bits, index);
    len := last + 1;
  }

  method Encode4(input: u64) returns (out: seq<u8>)
    ensures out == Encode(input, 4)
  {
    out := EncodeFixed(input, 4);
  }

  method Decode4(input: seq<u8>) returns (value: nat, len: nat)
    requires DecodeU64(input, 4).Some?
    ensures (value, len) == DecodeU64(input, 4).value
  {
    value, len := DecodeFixed(input, 4);
  }

  method Encode5(input: u64) returns (out: seq<u8>)
    ensures out == Encode(input, 5)
  {
    out := EncodeFixed(input, 5);
  }

  method Decode5(input: seq<u8>) returns (value: nat, len: nat)
    requires DecodeU64(input, 5).Some?
    ensures (value, len) == DecodeU64(input, 5).value
  {
    value, len := DecodeFixed(input, 5);
  }

  method Encode6(input: u64) returns (out: seq<u8>)
    ensures out == Encode(input, 6)
  {
    out := EncodeFixed(input, 6);
  }

  method Decode6(input: seq<u8>) returns (value: nat, len: nat)
    requires DecodeU64(input, 6).Some?
    ensures (value, len) == DecodeU64(input, 6).value
  {
    value, len := DecodeFixed(input, 6);
  }

  /** `encode_1`: bit 0 of the input alone, then at least one group. */
  method Encode1(input: u64) returns (out: seq<u8>)
    ensures out == Encode(input, 1)
    ensures |out| >= 2 && out[0] == input % 2
  {
    var value: nat := input;
    var val := input % 2;
    value := value / 2;
    out := PushGroups(value, [val]);
  }

  /** `decode_1`: bit 0 of byte 0, then the groups from index 1. */
  method Decode1(input: seq<u8>) returns (value: nat, len: nat)
    requires DecodeU64(input, 1).Some?
    ensures (value, len) == DecodeU64(input, 1).value
  {
    var result := input[0] % 2;
    var last;
    value, last := ReadGroups(input, result, 1, 1);
    len := last + 1;
  }

  /** `encode_0`: unsigned LEB128. */
  method Encode0(input: u64) returns (out: seq<u8>)
    ensures out == Encode(input, 0) == Leb(input)
  {
    out := PushGroups(input, []);
  }

  /** `decode_0`: unsigned LEB128, ignoring whatever follows the last group. */
  method Decode0(input: seq<u8>) returns (value: nat, len: nat)
    requires DecodeU64(input, 0).Some?
    ensures (value, len) == DecodeU64(input, 0).value
  {
    var last;
    assert input[0..] == input;
    value, last := ReadGroups(input, 0, 0, 0);
    len := last + 1;
  }

  /**
   * The source's round-trip tests, for every value rather than a sample:
   * decoding what `encode_5` produced gives back the value and the length.
   */
  method RoundTrip5(v: u64) returns (w: nat, len: nat)
    ensures w == v
  {
    var out := Encode5(v);
    RoundTripU64(v, 5, []);
    assert out + [] == out;
    w, len := Decode5(out);
  }

  /** `decode_1(encode_1(v)).0 == v`. */
  method RoundTrip1(v: u64) returns (w: nat)
    ensures w == v
  {
    var out := Encode1(v);
    RoundTripU64(v, 1, []);
    assert out + [] == out;
    var len;
    w, len := Decode1(out);
  }

  /** `decode_0(encode_0(v)) == (v, encode_0(v).len())`. */
  method RoundTrip0(v: u64) returns (w: nat, len: nat, encodedLen: nat)
    ensures w == v && len == encodedLen
  {
    var out := Encode0(v);
    encodedLen := |out|;
    RoundTripU64(v, 0, []);
    assert out + [] == out;
    w, len := Decode0(out);
  }

  /** The source's vectors for the specialised encoders. */
  lemma FixedVectors()
    ensures Encode(0xE_A9AC, 0) == [0xAC, 0xD3, 0x3A]
  {
  }
}
