/**
 * The tests of src/zsan_parser.rs: an integer that would pass `MAX` is
 * split, so is a fraction (and its 16 places are kept), and a mixed line
 * gives its spaces and numbers while '+', letters and a lone "00" before
 * "7.8" are skipped.
 */
module ParserTests {
  import opened Bytes
  import opened Digits
  import opened Parser

  /** A digit loop over nines, started on a value of `m` nines, gains one nine per byte. */
  lemma {:induction false} NinesRun(s: seq<u8>, k: nat, n: nat, m: nat)
    requires k <= n <= |s| && Pow10(m + (n - k)) <= MAX + 1
    requires forall i :: k <= i < n ==> s[i] == 0x39
    ensures DigitRun(s, k, Pow10(m) - 1) == DigitRun(s, n, Pow10(m + (n - k)) - 1)
    decreases n - k
  {
    if k < n {
      var p := Pow10(m);
      assert Pow10(m + 1) == 10 * p;
      assert s[k] == 0x39;
      Pow10Monotone(m + 1, m + (n - k));
      assert DigitRun(s, k, p - 1) == DigitRun(s, k + 1, Pow10(m + 1) - 1);
      assert m + 1 + (n - (k + 1)) == m + (n - k);
      NinesRun(s, k + 1, n, m + 1);
    }
  }

  lemma {:induction false} Pow10Monotone(a: nat, b: nat)
    requires a <= b
    ensures Pow10(a) <= Pow10(b)
    decreases b - a
  {
    if a < b {
      Pow10Monotone(a + 1, b);
    }
  }

  const SPLIT_LARGE: seq<u8> := [0x39, 0x39, 0x39, 0x39, 0x39, 0x39, 0x39, 0x39, 0x39, 0x39, 0x39, 0x39, 0x39, 0x39, 0x39, 0x39, 0x39, 0x39, 0x38, 0x38]

  /** `split_large`: the run stops at 18 nines, and "88" is its own block. */
  lemma SplitLarge(s: seq<u8>)
    requires s == SPLIT_LARGE
    ensures Scan(s, 0)
         == [Numerical(0, 18, NumericalBlock(MAX, false, 0)), Numerical(18, 2, NumericalBlock(88, false, 0))]
  {
    SplitLargeHead(s);
    SplitLargeTail(s);
    assert SpaceEnd(s, 0) == 0;
  }

  lemma SplitLargeHead(s: seq<u8>)
    requires s == SPLIT_LARGE
    ensures Token(s, 0) == (18, [Numerical(0, 18, NumericalBlock(MAX, false, 0))])
  {
    Pow10Values();
    NinesRun(s, 0, 18, 0);
    assert DigitRun(s, 18, MAX) == (18, MAX);
  }

  lemma SplitLargeTail(s: seq<u8>)
    requires s == SPLIT_LARGE
    ensures Scan(s, 18) == [Numerical(18, 2, NumericalBlock(88, false, 0))]
  {
    assert DigitRun(s, 20, 88) == (20, 88);
    assert DigitRun(s, 19, 8) == (20, 88);
    assert DigitRun(s, 18, 0) == (20, 88);
    assert Token(s, 18) == (20, [Numerical(18, 2, NumericalBlock(88, false, 0))]);
    assert SpaceEnd(s, 18) == 18;
  }

  const SPLIT_DECIMAL: seq<u8> := [0x39, 0x39, 0x2E, 0x39, 0x39, 0x39, 0x39, 0x39, 0x39, 0x39, 0x39, 0x39, 0x39, 0x39, 0x39, 0x39, 0x39, 0x39, 0x39, 0x38, 0x38]

  /**
   * `split_decimal`: "99." and sixteen nines fill the value, so the block
   * has 16 places, more than `MAX_DECIMAL_PLACES`, and "88" follows.
   */
  lemma SplitDecimal(s: seq<u8>)
    requires s == SPLIT_DECIMAL
    ensures Scan(s, 0)
         == [Numerical(0, 19, NumericalBlock(MAX, false, 16)), Numerical(19, 2, NumericalBlock(88, false, 0))]
  {
    SplitDecimalHead(s);
    SplitDecimalTail(s);
    assert SpaceEnd(s, 0) == 0;
  }

  lemma SplitDecimalHead(s: seq<u8>)
    requires s == SPLIT_DECIMAL
    ensures Token(s, 0) == (19, [Numerical(0, 19, NumericalBlock(MAX, false, 16))])
  {
    SplitDecimalInteger(s);
    SplitDecimalFraction(s);
    assert Token(s, 0) == Fraction(s, 0, false, 2, 99);
    assert Fraction(s, 0, false, 2, 99) == (19, Emit(0, false, 2, MAX, 16));
  }

  lemma SplitDecimalInteger(s: seq<u8>)
    requires s == SPLIT_DECIMAL
    ensures s[0] == 0x39 && DigitRun(s, 0, 0) == (2, 99)
  {
    NinesRun(s, 0, 2, 0);
    assert DigitRun(s, 2, 99) == (2, 99);
  }

  lemma SplitDecimalFraction(s: seq<u8>)
    requires s == SPLIT_DECIMAL
    ensures s[2] == DOT && DigitRun(s, 3, 99) == (19, MAX)
  {
    Pow10Values();
    Pow10Monotone(2, 18);
    NinesRun(s, 3, 19, 2);
    assert DigitRun(s, 19, MAX) == (19, MAX);
  }

  lemma SplitDecimalTail(s: seq<u8>)
    requires s == SPLIT_DECIMAL
    ensures Scan(s, 19) == [Numerical(19, 2, NumericalBlock(88, false, 0))]
  {
    assert DigitRun(s, 21, 88) == (21, 88);
    assert DigitRun(s, 20, 8) == (21, 88);
    assert DigitRun(s, 19, 0) == (21, 88);
    assert Token(s, 19) == (21, [Numerical(19, 2, NumericalBlock(88, false, 0))]);
    assert SpaceEnd(s, 19) == 19;
  }

  const MIX: seq<u8> := [0x20, 0x20, 0x2D, 0x31, 0x32, 0x2E, 0x30, 0x35, 0x30, 0x20, 0x20, 0x30, 0x30, 0x37, 0x2E, 0x38, 0x20, 0x20, 0x2B, 0x33, 0x2E, 0x30, 0x30, 0x20, 0x20, 0x30, 0x2E, 0x30, 0x20, 0x20, 0x61, 0x62, 0x63, 0x20, 0x20, 0x20]

  /** The bytes of `MIX`, one by one. */
  predicate MixShape(s: seq<u8>)
  {
    |s| == 36 && MixBytes0(s) && MixBytes1(s) && MixBytes2(s)
  }

  predicate MixBytes0(s: seq<u8>)
    requires |s| == 36
  {
    s[0] == 0x20 && s[1] == 0x20 && s[2] == 0x2D && s[3] == 0x31 && s[4] == 0x32 && s[5] == 0x2E
    && s[6] == 0x30 && s[7] == 0x35 && s[8] == 0x30 && s[9] == 0x20 && s[10] == 0x20 && s[11] == 0x30
  }

  predicate MixBytes1(s: seq<u8>)
    requires |s| == 36
  {
    s[12] == 0x30 && s[13] == 0x37 && s[14] == 0x2E && s[15] == 0x38 && s[16] == 0x20 && s[17] == 0x20
    && s[18] == 0x2B && s[19] == 0x33 && s[20] == 0x2E && s[21] == 0x30 && s[22] == 0x30 && s[23] == 0x20
  }

  predicate MixBytes2(s: seq<u8>)
    requires |s| == 36
  {
    s[24] == 0x20 && s[25] == 0x30 && s[26] == 0x2E && s[27] == 0x30 && s[28] == 0x20 && s[29] == 0x20
    && s[30] == 0x61 && s[31] == 0x62 && s[32] == 0x63 && s[33] == 0x20 && s[34] == 0x20 && s[35] == 0x20
  }

  lemma MixShapeOfMix()
    ensures MixShape(MIX)
  {
    MixBytes0OfMix();
    MixBytes1OfMix();
    MixBytes2OfMix();
  }

  lemma MixBytes0OfMix()
    ensures |MIX| == 36 && MixBytes0(MIX)
  {
    assert MIX[0] == 0x20 && MIX[1] == 0x20 && MIX[2] == 0x2D && MIX[3] == 0x31 && MIX[4] == 0x32 && MIX[5] == 0x2E;
    assert MIX[6] == 0x30 && MIX[7] == 0x35 && MIX[8] == 0x30 && MIX[9] == 0x20 && MIX[10] == 0x20 && MIX[11] == 0x30;
  }

  lemma MixBytes1OfMix()
    ensures |MIX| == 36 && MixBytes1(MIX)
  {
    assert MIX[12] == 0x30 && MIX[13] == 0x37 && MIX[14] == 0x2E && MIX[15] == 0x38 && MIX[16] == 0x20 && MIX[17] == 0x20;
    assert MIX[18] == 0x2B && MIX[19] == 0x33 && MIX[20] == 0x2E && MIX[21] == 0x30 && MIX[22] == 0x30 && MIX[23] == 0x20;
  }

  lemma MixBytes2OfMix()
    ensures |MIX| == 36 && MixBytes2(MIX)
  {
    assert MIX[24] == 0x20 && MIX[25] == 0x30 && MIX[26] == 0x2E && MIX[27] == 0x30 && MIX[28] == 0x20 && MIX[29] == 0x20;
    assert MIX[30] == 0x61 && MIX[31] == 0x62 && MIX[32] == 0x63 && MIX[33] == 0x20 && MIX[34] == 0x20 && MIX[35] == 0x20;
  }

  lemma MixTail(s: seq<u8>)
    requires MixShape(s)
    ensures Scan(s, 28) == [Space(28, 2), Space(33, 3)]
  {
    assert SpaceEnd(s, 36) == 36;
    assert SpaceEnd(s, 35) == 36;
    assert SpaceEnd(s, 34) == 36;
    assert SpaceEnd(s, 33) == 36;
    assert Scan(s, 33) == [Space(33, 3)];
    assert Token(s, 32) == (33, []);
    assert Scan(s, 32) == [Space(33, 3)];
    assert Token(s, 31) == (32, []);
    assert Scan(s, 31) == [Space(33, 3)];
    assert Token(s, 30) == (31, []);
    assert SpaceEnd(s, 29) == 30;
    assert SpaceEnd(s, 28) == 30;
  }

  lemma Mix23(s: seq<u8>)
    requires MixShape(s)
    ensures Scan(s, 23) == [Space(23, 2), Numerical(25, 3, NumericalBlock(0, false, 1))] + Scan(s, 28)
  {
    assert DigitRun(s, 28, 0) == (28, 0);
    assert DigitRun(s, 27, 0) == (28, 0);
    assert Token(s, 25) == (28, [Numerical(25, 3, NumericalBlock(0, false, 1))]);
    assert SpaceEnd(s, 24) == 25;
    assert SpaceEnd(s, 23) == 25;
  }

  lemma Mix19(s: seq<u8>)
    requires MixShape(s)
    ensures Scan(s, 19) == [Numerical(19, 4, NumericalBlock(300, false, 2))] + Scan(s, 23)
  {
    assert DigitRun(s, 19, 0) == (20, 3);
    assert DigitRun(s, 23, 300) == (23, 300);
    assert DigitRun(s, 22, 30) == (23, 300);
    assert DigitRun(s, 21, 3) == (23, 300);
  }

  lemma Mix16(s: seq<u8>)
    requires MixShape(s)
    ensures Scan(s, 16) == [Space(16, 2)] + Scan(s, 19)
  {
    assert DigitRun(s, 18, 0) == (18, 0);
  }

  lemma Mix13(s: seq<u8>)
    requires MixShape(s)
    ensures Scan(s, 13) == [Numerical(13, 3, NumericalBlock(78, false, 1))] + Scan(s, 16)
  {
    assert DigitRun(s, 14, 7) == (14, 7);
    assert DigitRun(s, 13, 0) == (14, 7);
    assert DigitRun(s, 16, 78) == (16, 78);
    assert DigitRun(s, 15, 7) == (16, 78);
    assert Token(s, 13) == (16, [Numerical(13, 3, NumericalBlock(78, false, 1))]);
  }

  lemma Mix9(s: seq<u8>)
    requires MixShape(s)
    ensures Scan(s, 9) == [Space(9, 2)] + Scan(s, 13)
  {
    assert Token(s, 12) == (13, []);
    assert Scan(s, 12) == Scan(s, 13);
    assert Token(s, 11) == (12, []);
    assert SpaceEnd(s, 10) == 11;
    assert SpaceEnd(s, 9) == 11;
  }

  lemma MixNegative(s: seq<u8>)
    requires MixShape(s)
    ensures Token(s, 2) == (9, [Numerical(2, 7, NumericalBlock(12050, true, 3))])
  {
    assert DigitRun(s, 5, 12) == (5, 12);
    assert DigitRun(s, 4, 1) == (5, 12);
    assert DigitRun(s, 3, 0) == (5, 12);
    assert DigitRun(s, 9, 12050) == (9, 12050);
    assert DigitRun(s, 8, 1205) == (9, 12050);
    assert DigitRun(s, 7, 120) == (9, 12050);
    assert DigitRun(s, 6, 12) == (9, 12050);
  }

  lemma Mix0(s: seq<u8>)
    requires MixShape(s)
    requires Token(s, 2) == (9, [Numerical(2, 7, NumericalBlock(12050, true, 3))])
    ensures Scan(s, 0) == [Space(0, 2), Numerical(2, 7, NumericalBlock(12050, true, 3))] + Scan(s, 9)
  {
    assert SpaceEnd(s, 2) == 2;
    assert SpaceEnd(s, 1) == 2;
    assert SpaceEnd(s, 0) == 2;
  }

  /** The blocks of `MIX`, grouped by the round of the scan that pushes them. */
  const MIX_BLOCKS: seq<Block> :=
    [Space(0, 2), Numerical(2, 7, NumericalBlock(12050, true, 3))]
    + ([Space(9, 2)]
    + ([Numerical(13, 3, NumericalBlock(78, false, 1))]
    + ([Space(16, 2)]
    + ([Numerical(19, 4, NumericalBlock(300, false, 2))]
    + ([Space(23, 2), Numerical(25, 3, NumericalBlock(0, false, 1))]
    + [Space(28, 2), Space(33, 3)])))))

  /** `mix`: the blocks of "  -12.050  007.8  +3.00  0.0  abc   ". */
  lemma Mix(s: seq<u8>)
    requires MixShape(s)
    ensures Scan(s, 0) == MIX_BLOCKS
  {
    MixTail(s);
    Mix23(s);
    Mix19(s);
    Mix16(s);
    Mix13(s);
    Mix9(s);
    MixNegative(s);
    Mix0(s);
  }

  /** `split_large` as the source's test calls it: no sign, no places. */
  method SplitLargeTest() returns (hasNegative: bool, hasDecimal: bool, out: seq<Block>)
    ensures !hasNegative && !hasDecimal
    ensures out == [Numerical(0, 18, NumericalBlock(MAX, false, 0)), Numerical(18, 2, NumericalBlock(88, false, 0))]
  {
    hasNegative, hasDecimal, out := RetraveBlocks(SPLIT_LARGE);
    SplitLarge(SPLIT_LARGE);
  }

  /** `split_decimal` as the source's test calls it: places but no sign. */
  method SplitDecimalTest() returns (hasNegative: bool, hasDecimal: bool, out: seq<Block>)
    ensures !hasNegative && hasDecimal
    ensures out == [Numerical(0, 19, NumericalBlock(MAX, false, 16)), Numerical(19, 2, NumericalBlock(88, false, 0))]
  {
    hasNegative, hasDecimal, out := RetraveBlocks(SPLIT_DECIMAL);
    SplitDecimal(SPLIT_DECIMAL);
    assert IsDecimal(out[0]);
  }

  /** `mix` as the source's test calls it: both flags set. */
  method MixTest() returns (hasNegative: bool, hasDecimal: bool, out: seq<Block>)
    ensures hasNegative && hasDecimal
    ensures out == MIX_BLOCKS
  {
    hasNegative, hasDecimal, out := RetraveBlocks(MIX);
    MixShapeOfMix();
    Mix(MIX);
    assert IsNegative(out[1]) && IsDecimal(out[1]);
  }
}
