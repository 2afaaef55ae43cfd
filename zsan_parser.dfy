/**
 * src/zsan_parser.rs: `retrave_blocks` cuts an ASCII record into the runs
 * of spaces and the numbers the numeric codecs can carry, left to right,
 * and reports whether any number kept is negative or has decimal places.
 * Bytes that start neither a space run nor a number are skipped.
 */
module Parser {
  import opened Bytes
  import opened Digits

  /** The largest value a number may accumulate (`MAX`, 10^18 - 1). */
  const MAX: nat := 999_999_999_999_999_999

  /** A number found in the text: its digits' value, sign and places. */
  datatype NumericalBlock = NumericalBlock(base: nat, negative: bool, decimalPlaces: nat)

  /** A block: where it starts in the text and how many bytes it spans. */
  datatype Block =
    | Numerical(start: nat, len: nat, num: NumericalBlock)
    | Space(start: nat, len: nat)

  // ---------------------------------------------------------------------
  // The scan, one step of the outer loop at a time
  // ---------------------------------------------------------------------

  /** Where the run of spaces starting at `i` ends (`flush_space!`). */
  function SpaceEnd(s: seq<u8>, i: nat): (j: nat)
    requires i <= |s|
    ensures i <= j <= |s|
    ensures forall k :: i <= k < j ==> s[k] == SPACE
    ensures j == |s| || s[j] != SPACE
    decreases |s| - i
  {
    if i < |s| && s[i] == SPACE then SpaceEnd(s, i + 1) else i
  }

  /**
   * A digit loop from `j` with `acc` accumulated so far: it takes digits
   * while the value stays at most `MAX`, and gives where it stopped and the
   * value.  As `acc * 10 + 9` never exceeds 2^64 - 1 when `acc <= MAX`, the
   * source's checked multiply and add fail only where this bound does.
   */
  function DigitRun(s: seq<u8>, j: nat, acc: nat): (r: (nat, nat))
    requires j <= |s|
    ensures j <= r.0 <= |s|
    decreases |s| - j
  {
    if j < |s| && IsDigit(s[j]) && acc * 10 + (s[j] - ZERO) <= MAX then
      DigitRun(s, j + 1, acc * 10 + (s[j] - ZERO))
    else (j, acc)
  }

  /**
   * The block pushed for a number, if any: only a non-zero value or one
   * with decimal places is kept; a '.' without fraction digits is not
   * counted in the length.
   */
  function Emit(start: nat, negative: bool, integerEnd: nat, base: nat, places: nat): seq<Block>
    requires start <= integerEnd
  {
    if base != 0 || places != 0 then
      [Numerical(start, if places == 0 then integerEnd - start else integerEnd - start + places + 1,
                 NumericalBlock(base, negative, places))]
    else []
  }

  /**
   * After the integer digits end at `integerEnd`: a '.' is consumed and the
   * fraction digits keep accumulating into the same value.
   */
  function Fraction(s: seq<u8>, start: nat, negative: bool, integerEnd: nat, base: nat): (r: (nat, seq<Block>))
    requires start < integerEnd <= |s|
    ensures integerEnd <= r.0 <= |s|
  {
    if integerEnd < |s| && s[integerEnd] == DOT then
      var (fracEnd, v) := DigitRun(s, integerEnd + 1, base);
      (fracEnd, Emit(start, negative, integerEnd, v, fracEnd - integerEnd - 1))
    else (integerEnd, Emit(start, negative, integerEnd, base, 0))
  }

  /**
   * The outer loop's work at a byte that is not a space: an optional '-',
   * then a lone '0' or a run of digits, then the fraction.  With no digit
   * the byte after the optional '-' is skipped as well, so the scan may
   * move to `|s| + 1`.
   */
  function Token(s: seq<u8>, start: nat): (r: (nat, seq<Block>))
    requires start < |s|
    ensures start < r.0 <= |s| + 1
  {
    var negative := s[start] == MINUS;
    var i := if negative then start + 1 else start;
    if i < |s| && s[i] == ZERO then Fraction(s, start, negative, i + 1, 0)
    else
      var (integerEnd, base) := DigitRun(s, i, 0);
      if integerEnd == i then (i + 1, [])
      else Fraction(s, start, negative, integerEnd, base)
  }

  /** The blocks `retrave_blocks` finds from position `idx` on. */
  function Scan(s: seq<u8>, idx: nat): seq<Block>
    requires idx <= |s| + 1
    decreases |s| + 1 - idx
  {
    if idx >= |s| then []
    else
      var j := SpaceEnd(s, idx);
      var spaces := if j > idx then [Space(idx, j - idx)] else [];
      if j >= |s| then spaces
      else spaces + Token(s, j).1 + Scan(s, Token(s, j).0)
  }

  predicate IsNegative(b: Block)
  {
    b.Numerical? && b.num.negative
  }

  predicate IsDecimal(b: Block)
  {
    b.Numerical? && b.num.decimalPlaces != 0
  }

  predicate HasNegative(bs: seq<Block>)
  {
    exists i :: 0 <= i < |bs| && IsNegative(bs[i])
  }

  predicate HasDecimal(bs: seq<Block>)
  {
    exists i :: 0 <= i < |bs| && IsDecimal(bs[i])
  }

  // ---------------------------------------------------------------------
  // retrave_blocks
  // ---------------------------------------------------------------------

  /**
   * `retrave_blocks`: the blocks of `s` in order, with whether one of them
   * is negative and whether one of them has decimal places.
   */
  method RetraveBlocks(s: seq<u8>) returns (hasNegative: bool, hasDecimal: bool, out: seq<Block>)
    ensures out == Scan(s, 0)
    ensures hasNegative == HasNegative(out)
    ensures hasDecimal == HasDecimal(out)
  {
    hasNegative, hasDecimal := false, false;
    var n := |s|;
    out := [];
    var idx := 0;
    while idx < n
      invariant idx <= n + 1
      invariant out + Scan(s, idx) == Scan(s, 0)
      invariant hasNegative == HasNegative(out) && hasDecimal == HasDecimal(out)
      decreases n + 1 - idx
    {
      ghost var before, idx0 := out, idx;
      var j;
      j, out := FlushSpace(s, idx, out);
      ghost var spaces: seq<Block> := if j > idx then [Space(idx, j - idx)] else [];
      idx := j;
      if idx >= n {
        assert out == Scan(s, 0);
        break;
      }

      var start := idx;
      var neg, digits, integerEnd, base, decPl;
      idx, neg, digits, integerEnd, base, decPl := ReadNumber(s, start);
      if !digits {
        ScanStep(s, idx0, start, idx, []);
        assert out == before + spaces + [];
        Regroup(out, before, spaces, [], Scan(s, idx), Scan(s, idx0), Scan(s, 0));
        continue;
      }

      // push the result
      hasNegative, hasDecimal, out := PushNumber(start, neg, integerEnd, base, decPl, hasNegative, hasDecimal, out);
      ghost var pushed := Emit(start, neg, integerEnd, base, decPl);
      ScanStep(s, idx0, start, idx, pushed);
      Regroup(out, before, spaces, pushed, Scan(s, idx), Scan(s, idx0), Scan(s, 0));
    }
  }

  /**
   * `flush_space!`: skips the spaces from `i` and pushes one `Space` block
   * for them if there were any; gives where the spaces end.
   */
  method FlushSpace(s: seq<u8>, i: nat, out0: seq<Block>) returns (j: nat, out: seq<Block>)
    requires i <= |s|
    ensures j == SpaceEnd(s, i)
    ensures out == out0 + (if j > i then [Space(i, j - i)] else [])
    ensures HasNegative(out) == HasNegative(out0) && HasDecimal(out) == HasDecimal(out0)
  {
    j := i;
    while j < |s| && s[j] == SPACE
      invariant i <= j <= |s|
      invariant SpaceEnd(s, j) == SpaceEnd(s, i)
      decreases |s| - j
    {
      j := j + 1;
    }
    out := out0;
    if j > i {
      AppendFlags(out, Space(i, j - i));
      out := out + [Space(i, j - i)];
    }
  }

  /**
   * The loop body after the spaces: an optional '-', then a lone '0' or the
   * integer digits, then a '.' and the fraction digits.  Without integer
   * digits (`digits` false) the byte after the optional '-' is skipped.
   */
  method ReadNumber(s: seq<u8>, start: nat)
    returns (idx: nat, neg: bool, digits: bool, integerEnd: nat, base: nat, decPl: nat)
    requires start < |s|
    ensures neg == (s[start] == MINUS)
    ensures digits ==> start < integerEnd <= |s|
    ensures digits ==> Token(s, start) == (idx, Emit(start, neg, integerEnd, base, decPl))
    ensures !digits ==> Token(s, start) == (idx, [])
  {
    var n := |s|;
    idx := start;
    neg := s[idx] == MINUS;
    if neg {
      idx := idx + 1;
    }

    // the integer part
    base := 0;
    integerEnd := idx;
    decPl := 0;
    if idx < n && s[idx] == ZERO {
      integerEnd := idx + 1;
      base := 0;
    } else {
      integerEnd, base := AccumulateDigits(s, idx, 0);
      if integerEnd == idx {
        idx := idx + 1;
        digits := false;
        return;
      }
    }
    digits := true;
    ghost var tok := Fraction(s, start, neg, integerEnd, base);
    assert Token(s, start) == tok;
    idx := integerEnd;

    // the fraction
    if idx < n && s[idx] == DOT {
      idx := idx + 1;
      var fracIdx, tmp := AccumulateDigits(s, idx, base);
      decPl := fracIdx - idx;
      base := tmp;
      idx := fracIdx;
    }
  }

  /**
   * Pushing the result: a non-zero value or one with decimal places becomes
   * a `Numerical` block, and its sign and places set the flags.
   */
  method PushNumber(start: nat, neg: bool, integerEnd: nat, base: nat, decPl: nat,
                    hasNegative0: bool, hasDecimal0: bool, out0: seq<Block>)
    returns (hasNegative: bool, hasDecimal: bool, out: seq<Block>)
    requires start <= integerEnd
    requires hasNegative0 == HasNegative(out0) && hasDecimal0 == HasDecimal(out0)
    ensures out == out0 + Emit(start, neg, integerEnd, base, decPl)
    ensures hasNegative == HasNegative(out) && hasDecimal == HasDecimal(out)
  {
    hasNegative, hasDecimal, out := hasNegative0, hasDecimal0, out0;
    if base != 0 || decPl != 0 {
      var len;
      if decPl == 0 {
        len := integerEnd - start;
      } else {
        hasDecimal := true;
        len := integerEnd - start + decPl + 1;
      }
      if neg {
        hasNegative := true;
      }
      var block := Numerical(start, len, NumericalBlock(base, neg, decPl));
      AppendFlags(out, block);
      out := out + [block];
    } else {
      assert out == out0 + [];
    }
  }

  /**
   * The digit loops of `retrave_blocks`: from `j`, take digits into `acc`
   * while the value stays at most `MAX`.
   */
  method AccumulateDigits(s: seq<u8>, j: nat, acc: nat) returns (end: nat, v: nat)
    requires j <= |s| && acc <= MAX
    ensures (end, v) == DigitRun(s, j, acc)
    ensures v <= MAX
  {
    end, v := j, acc;
    while end < |s| && IsDigit(s[end])
      invariant j <= end <= |s| && v <= MAX
      invariant DigitRun(s, end, v) == DigitRun(s, j, acc)
      decreases |s| - end
    {
      var next := v * 10 + (s[end] - ZERO);
      if next > MAX {
        break;
      }
      v := next;
      end := end + 1;
    }
  }

  /** One round of the loop: spaces, then a token, then the rest. */
  lemma ScanStep(s: seq<u8>, idx: nat, j: nat, next: nat, pushed: seq<Block>)
    requires idx < |s| && j == SpaceEnd(s, idx) && j < |s|
    requires Token(s, j) == (next, pushed)
    ensures Scan(s, idx) == (if j > idx then [Space(idx, j - idx)] else []) + pushed + Scan(s, next)
  {
  }

  /** The loop invariant carried over one round, on any sequences. */
  lemma Regroup(out: seq<Block>, before: seq<Block>, spaces: seq<Block>, pushed: seq<Block>,
                rest: seq<Block>, round: seq<Block>, all: seq<Block>)
    requires out == before + spaces + pushed
    requires before + round == all && round == spaces + pushed + rest
    ensures out + rest == all
  {
    assert out + rest == before + (spaces + pushed + rest);
  }

  /** Appending one block sets a flag exactly when that block calls for it. */
  lemma AppendFlags(bs: seq<Block>, b: Block)
    ensures HasNegative(bs + [b]) == (HasNegative(bs) || IsNegative(b))
    ensures HasDecimal(bs + [b]) == (HasDecimal(bs) || IsDecimal(b))
  {
    var c := bs + [b];
    assert c[|bs|] == b;
    if HasNegative(bs) {
      var i :| 0 <= i < |bs| && IsNegative(bs[i]);
      assert c[i] == bs[i];
    }
    if HasDecimal(bs) {
      var i :| 0 <= i < |bs| && IsDecimal(bs[i]);
      assert c[i] == bs[i];
    }
    if HasNegative(c) && !IsNegative(b) {
      var i :| 0 <= i < |c| && IsNegative(c[i]);
      assert bs[i] == c[i];
    }
    if HasDecimal(c) && !IsDecimal(b) {
      var i :| 0 <= i < |c| && IsDecimal(c[i]);
      assert bs[i] == c[i];
    }
  }

  // ---------------------------------------------------------------------
  // What the blocks mean
  // ---------------------------------------------------------------------

  /** A digit loop that stopped at `e` with value `v` had to: no more digits, or the next would pass `MAX`. */
  predicate Stops(s: seq<u8>, e: nat, v: nat)
    requires e <= |s|
  {
    e == |s| || !IsDigit(s[e]) || v * 10 + (s[e] - ZERO) > MAX
  }

  /** A space block: at least one byte, all spaces, and no space right after it. */
  predicate SpaceOk(s: seq<u8>, start: nat, len: nat)
  {
    1 <= len && start + len <= |s|
    && (forall k :: start <= k < start + len ==> s[k] == SPACE)
    && (start + len == |s| || s[start + len] != SPACE)
  }

  /**
   * A number block: '-' exactly when negative, then integer digits (a lone
   * '0' if they start with one), then with places a '.' and that many
   * fraction digits; the digits with the '.' left out denote `base`, which
   * is at most `MAX`, and the digit after the block could not be taken.
   */
  predicate NumberOk(s: seq<u8>, start: nat, len: nat, num: NumericalBlock)
  {
    var sign := if num.negative then 1 else 0;
    var places := num.decimalPlaces;
    var end := start + len;
    end <= |s| && (places > 0 ==> places + 1 <= len) &&
    var integerEnd := if places == 0 then end else end - places - 1;
    start + sign < integerEnd
    && (num.negative <==> s[start] == MINUS)
    && AllDigits(s[start + sign .. integerEnd])
    && (s[start + sign] == ZERO ==> integerEnd == start + sign + 1)
    && (places > 0 ==> s[integerEnd] == DOT)
    && AllDigits(s[end - places .. end])
    && AllDigits(s[start + sign .. integerEnd] + s[end - places .. end])
    && num.base == DigitsValue(s[start + sign .. integerEnd] + s[end - places .. end])
    && num.base <= MAX
    && (num.base != 0 || places != 0)
    && Stops(s, end, num.base)
  }

  predicate BlockOk(s: seq<u8>, b: Block)
  {
    match b
    case Space(start, len) => SpaceOk(s, start, len)
    case Numerical(start, len, num) => NumberOk(s, start, len, num)
  }

  /** Each block starts at or after `lo` and ends before the next begins. */
  predicate Ordered(bs: seq<Block>, lo: nat)
    decreases |bs|
  {
    |bs| == 0 || (lo <= bs[0].start && Ordered(bs[1..], bs[0].start + bs[0].len))
  }

  /**
   * A digit loop takes only digits, adds their value below `acc`'s, stays
   * at most `MAX`, and stops only where it has to.
   */
  lemma {:induction false} DigitRunMeaning(s: seq<u8>, j: nat, acc: nat)
    requires j <= |s| && acc <= MAX
    ensures AllDigits(s[j .. DigitRun(s, j, acc).0])
    ensures DigitRun(s, j, acc).1
         == acc * Pow10(DigitRun(s, j, acc).0 - j) + DigitsValue(s[j .. DigitRun(s, j, acc).0])
    ensures DigitRun(s, j, acc).1 <= MAX
    ensures Stops(s, DigitRun(s, j, acc).0, DigitRun(s, j, acc).1)
    decreases |s| - j
  {
    var (e, v) := DigitRun(s, j, acc);
    if j < |s| && IsDigit(s[j]) && acc * 10 + (s[j] - ZERO) <= MAX {
      var d := s[j] - ZERO;
      var acc' := acc * 10 + d;
      DigitRunMeaning(s, j + 1, acc');
      var rest := s[j + 1 .. e];
      var p := Pow10(e - j - 1);
      assert v == acc' * p + DigitsValue(rest);
      assert s[j .. e] == [s[j]] + rest;
      DigitsValueAppend([s[j]], rest);
      assert DigitsValue([s[j]]) == d by {
        assert [s[j]][..0] == [];
      }
      assert Pow10(e - j) == 10 * p;
      Distribute(acc, d, p);
    } else {
      assert s[j .. e] == [];
    }
  }

  lemma Distribute(acc: nat, d: nat, p: nat)
    ensures (acc * 10 + d) * p == acc * (10 * p) + d * p
  {
    calc {
      (acc * 10 + d) * p;
      acc * 10 * p + d * p;
      { assert acc * 10 * p == acc * (10 * p); }
      acc * (10 * p) + d * p;
    }
  }

  /**
   * After the integer digits: the block pushed, if any, starts at `start`,
   * ends where the scan goes on or before, and is a well-formed number.
   */
  lemma FractionBlock(s: seq<u8>, start: nat, negative: bool, integerEnd: nat, base: nat)
    requires start < integerEnd <= |s|
    requires negative == (s[start] == MINUS)
    requires start + (if negative then 1 else 0) < integerEnd
    requires AllDigits(s[start + (if negative then 1 else 0) .. integerEnd])
    requires base == DigitsValue(s[start + (if negative then 1 else 0) .. integerEnd]) && base <= MAX
    requires s[start + (if negative then 1 else 0)] == ZERO ==> integerEnd == start + (if negative then 1 else 0) + 1
    requires base != 0 ==> Stops(s, integerEnd, base)
    ensures var r := Fraction(s, start, negative, integerEnd, base);
      r.1 == [] || (|r.1| == 1 && r.1[0].Numerical? && r.1[0].start == start
                    && r.1[0].start + r.1[0].len <= r.0 && NumberOk(s, r.1[0].start, r.1[0].len, r.1[0].num))
  {
    var r := Fraction(s, start, negative, integerEnd, base);
    if integerEnd < |s| && s[integerEnd] == DOT {
      DotFractionBlock(s, start, negative, integerEnd, base);
    } else if base != 0 {
      NoPlacesBlock(s, start, negative, integerEnd, base);
      assert r.1 == [Numerical(start, integerEnd - start, NumericalBlock(base, negative, 0))];
    }
  }

  /** `FractionBlock` when a '.' follows the integer digits. */
  lemma DotFractionBlock(s: seq<u8>, start: nat, negative: bool, integerEnd: nat, base: nat)
    requires start < integerEnd < |s| && s[integerEnd] == DOT
    requires negative == (s[start] == MINUS)
    requires start + (if negative then 1 else 0) < integerEnd
    requires AllDigits(s[start + (if negative then 1 else 0) .. integerEnd])
    requires base == DigitsValue(s[start + (if negative then 1 else 0) .. integerEnd]) && base <= MAX
    requires s[start + (if negative then 1 else 0)] == ZERO ==> integerEnd == start + (if negative then 1 else 0) + 1
    ensures var r := Fraction(s, start, negative, integerEnd, base);
      r.1 == [] || (|r.1| == 1 && r.1[0].Numerical? && r.1[0].start == start
                    && r.1[0].start + r.1[0].len <= r.0 && NumberOk(s, r.1[0].start, r.1[0].len, r.1[0].num))
  {
    var r := Fraction(s, start, negative, integerEnd, base);
    DigitRunMeaning(s, integerEnd + 1, base);
    var (fracEnd, v) := DigitRun(s, integerEnd + 1, base);
    var places := fracEnd - integerEnd - 1;
    assert r == (fracEnd, Emit(start, negative, integerEnd, v, places));
    if places > 0 {
      PlacesBlock(s, start, negative, integerEnd, base, fracEnd, v);
      assert r.1 == [Numerical(start, fracEnd - start, NumericalBlock(v, negative, places))];
    } else if base != 0 {
      assert s[integerEnd + 1 .. fracEnd] == [];
      assert v == base;
      NoPlacesBlock(s, start, negative, integerEnd, base);
      assert r.1 == [Numerical(start, integerEnd - start, NumericalBlock(base, negative, 0))];
    }
  }

  lemma NoPlacesBlock(s: seq<u8>, start: nat, negative: bool, integerEnd: nat, base: nat)
    requires start < integerEnd <= |s|
    requires negative == (s[start] == MINUS)
    requires start + (if negative then 1 else 0) < integerEnd
    requires AllDigits(s[start + (if negative then 1 else 0) .. integerEnd])
    requires base == DigitsValue(s[start + (if negative then 1 else 0) .. integerEnd]) && base <= MAX
    requires s[start + (if negative then 1 else 0)] == ZERO ==> integerEnd == start + (if negative then 1 else 0) + 1
    requires base != 0 && Stops(s, integerEnd, base)
    ensures NumberOk(s, start, integerEnd - start, NumericalBlock(base, negative, 0))
  {
    var integer := s[start + (if negative then 1 else 0) .. integerEnd];
    assert s[integerEnd .. integerEnd] == [];
    assert integer + s[integerEnd .. integerEnd] == integer;
  }

  lemma PlacesBlock(s: seq<u8>, start: nat, negative: bool, integerEnd: nat, base: nat, fracEnd: nat, v: nat)
    requires start < integerEnd < fracEnd <= |s|
    requires negative == (s[start] == MINUS)
    requires start + (if negative then 1 else 0) < integerEnd
    requires AllDigits(s[start + (if negative then 1 else 0) .. integerEnd])
    requires base == DigitsValue(s[start + (if negative then 1 else 0) .. integerEnd])
    requires s[start + (if negative then 1 else 0)] == ZERO ==> integerEnd == start + (if negative then 1 else 0) + 1
    requires s[integerEnd] == DOT && integerEnd + 1 < fracEnd
    requires AllDigits(s[integerEnd + 1 .. fracEnd])
    requires v == base * Pow10(fracEnd - integerEnd - 1) + DigitsValue(s[integerEnd + 1 .. fracEnd])
    requires v <= MAX && Stops(s, fracEnd, v)
    ensures NumberOk(s, start, fracEnd - start, NumericalBlock(v, negative, fracEnd - integerEnd - 1))
  {
    var integer := s[start + (if negative then 1 else 0) .. integerEnd];
    var places := fracEnd - integerEnd - 1;
    var fraction := s[integerEnd + 1 .. fracEnd];
    DigitsValueAppend(integer, fraction);
    assert fracEnd - places == integerEnd + 1;
  }

  /** The block a token pushes, if any, is a well-formed number at its start. */
  lemma TokenBlock(s: seq<u8>, start: nat)
    requires start < |s|
    ensures var r := Token(s, start);
      r.1 == [] || (|r.1| == 1 && r.1[0].Numerical? && r.1[0].start == start
                    && r.1[0].start + r.1[0].len <= r.0 && NumberOk(s, r.1[0].start, r.1[0].len, r.1[0].num))
  {
    var negative := s[start] == MINUS;
    var i := if negative then start + 1 else start;
    if i < |s| && s[i] == ZERO {
      assert s[i .. i + 1] == [ZERO] by {
        assert s[i .. i + 1][0] == s[i];
      }
      assert DigitsValue([ZERO]) == 0 by {
        assert [ZERO][..0] == [];
      }
      FractionBlock(s, start, negative, i + 1, 0);
    } else {
      DigitRunMeaning(s, i, 0);
      var (integerEnd, base) := DigitRun(s, i, 0);
      if integerEnd != i {
        FractionBlock(s, start, negative, integerEnd, base);
      }
    }
  }

  lemma OrderedCons(b: Block, bs: seq<Block>, lo: nat)
    requires lo <= b.start && Ordered(bs, b.start + b.len)
    ensures Ordered([b] + bs, lo)
  {
    assert ([b] + bs)[1..] == bs;
  }

  lemma OrderedFrom(bs: seq<Block>, lo: nat, lo': nat)
    requires lo' <= lo && Ordered(bs, lo)
    ensures Ordered(bs, lo')
  {
  }

  /** Every block of `bs` is well formed in `s`. */
  predicate AllOk(s: seq<u8>, bs: seq<Block>)
  {
    forall i :: 0 <= i < |bs| ==> BlockOk(s, bs[i])
  }

  lemma AllOkAppend(s: seq<u8>, a: seq<Block>, b: seq<Block>)
    requires AllOk(s, a) && AllOk(s, b)
    ensures AllOk(s, a + b)
  {
    forall i | 0 <= i < |a + b|
      ensures BlockOk(s, (a + b)[i])
    {
      if i < |a| {
        assert (a + b)[i] == a[i];
      } else {
        assert (a + b)[i] == b[i - |a|];
      }
    }
  }

  /** The space block of one round, if any, is well formed. */
  lemma SpacesOk(s: seq<u8>, idx: nat)
    requires idx < |s|
    ensures var j := SpaceEnd(s, idx);
      AllOk(s, if j > idx then [Space(idx, j - idx)] else [])
  {
  }

  /**
   * `retrave_blocks` terminates with blocks that lie inside the text, come
   * left to right without overlapping, and are each well formed.
   */
  lemma ScanWellFormed(s: seq<u8>, idx: nat)
    requires idx <= |s| + 1
    ensures forall b | b in Scan(s, idx) :: BlockOk(s, b)
    ensures Ordered(Scan(s, idx), idx)
  {
    ScanBlocksOk(s, idx);
    ScanOrdered(s, idx);
    forall b | b in Scan(s, idx)
      ensures BlockOk(s, b)
    {
      var i :| 0 <= i < |Scan(s, idx)| && Scan(s, idx)[i] == b;
    }
  }

  lemma {:induction false} ScanBlocksOk(s: seq<u8>, idx: nat)
    requires idx <= |s| + 1
    ensures AllOk(s, Scan(s, idx))
    decreases |s| + 1 - idx
  {
    if idx < |s| {
      var j := SpaceEnd(s, idx);
      var spaces := if j > idx then [Space(idx, j - idx)] else [];
      SpacesOk(s, idx);
      if j < |s| {
        var (next, tok) := Token(s, j);
        assert AllOk(s, tok) by {
          TokenBlock(s, j);
        }
        ScanBlocksOk(s, next);
        AllOkAppend(s, spaces, tok);
        AllOkAppend(s, spaces + tok, Scan(s, next));
      }
    }
  }

  lemma {:induction false} ScanOrdered(s: seq<u8>, idx: nat)
    requires idx <= |s| + 1
    ensures Ordered(Scan(s, idx), idx)
    decreases |s| + 1 - idx
  {
    if idx < |s| {
      var j := SpaceEnd(s, idx);
      var spaces := if j > idx then [Space(idx, j - idx)] else [];
      if j >= |s| {
        OrderedRound(idx, j, j, [], []);
        assert Scan(s, idx) == spaces + ([] + []);
      } else {
        var (next, tok) := Token(s, j);
        assert tok == [] || (|tok| == 1 && tok[0].start == j && tok[0].start + tok[0].len <= next) by {
          TokenBlock(s, j);
        }
        ScanOrdered(s, next);
        var rest := Scan(s, next);
        OrderedRound(idx, j, next, tok, rest);
      }
    }
  }

  /**
   * One round keeps the order: its space block, if any, ends where the
   * token begins, and the token's block, if any, ends by where the rest of
   * the scan begins.
   */
  lemma OrderedRound(idx: nat, j: nat, next: nat, tok: seq<Block>, rest: seq<Block>)
    requires idx <= j <= next && Ordered(rest, next)
    requires tok == [] || (|tok| == 1 && tok[0].start == j && tok[0].start + tok[0].len <= next)
    ensures Ordered((if j > idx then [Space(idx, j - idx)] else []) + tok + rest, idx)
  {
    var tail := tok + rest;
    assert (if j > idx then [Space(idx, j - idx)] else []) + tok + rest
        == (if j > idx then [Space(idx, j - idx)] else []) + tail;
    if tok == [] {
      assert tail == rest;
      OrderedFrom(rest, next, j);
    } else {
      assert tok == [tok[0]];
      OrderedCons(tok[0], rest, j);
      OrderedFrom(rest, next, tok[0].start + tok[0].len);
    }
    if j > idx {
      OrderedCons(Space(idx, j - idx), tail, idx);
    } else {
      assert [] + tail == tail;
      OrderedFrom(tail, j, idx);
    }
  }

  // ---------------------------------------------------------------------
  // What the blocks cover
  // ---------------------------------------------------------------------

  /** '1' to '9': a digit that makes the value it belongs to non-zero. */
  predicate IsNonzeroDigit(b: u8)
  {
    ZERO < b <= ZERO + 9
  }

  /** Position `k` lies inside a `Numerical` block of `bs`. */
  predicate InNumber(bs: seq<Block>, k: nat)
  {
    exists i :: 0 <= i < |bs| && bs[i].Numerical? && bs[i].start <= k < bs[i].start + bs[i].len
  }

  /** Position `k` lies inside a `Space` block of `bs`. */
  predicate InSpace(bs: seq<Block>, k: nat)
  {
    exists i :: 0 <= i < |bs| && bs[i].Space? && bs[i].start <= k < bs[i].start + bs[i].len
  }

  /** Every digit '1'-'9' of `s` lies in a number block of `bs`. */
  predicate DigitsCovered(s: seq<u8>, bs: seq<Block>)
  {
    forall k :: 0 <= k < |s| && IsNonzeroDigit(s[k]) ==> InNumber(bs, k)
  }

  /** Every space of `s` that does not follow a '-' lies in a space block of `bs`. */
  predicate SpacesCovered(s: seq<u8>, bs: seq<Block>)
  {
    forall k :: 0 <= k < |s| && s[k] == SPACE && (k == 0 || s[k - 1] != MINUS) ==> InSpace(bs, k)
  }

  /**
   * Nothing of the text is lost: every digit '1'-'9' lies in a number
   * block, and every space in a space block, except a space right after a
   * '-' that starts a number, which the scan skips with the '-'.
   */
  lemma RetraveCovers(s: seq<u8>)
    ensures DigitsCovered(s, Scan(s, 0))
    ensures SpacesCovered(s, Scan(s, 0))
  {
    var bs := Scan(s, 0);
    forall k | 0 <= k < |s|
      ensures IsNonzeroDigit(s[k]) ==> InNumber(bs, k)
      ensures s[k] == SPACE && (k == 0 || s[k - 1] != MINUS) ==> InSpace(bs, k)
    {
      ScanCovers(s, 0, k);
    }
  }

  /** `RetraveCovers` for the scan from `idx` on, by induction on its rounds. */
  lemma {:induction false} ScanCovers(s: seq<u8>, idx: nat, k: nat)
    requires idx <= k < |s|
    ensures IsNonzeroDigit(s[k]) ==> InNumber(Scan(s, idx), k)
    ensures s[k] == SPACE && (k == idx || s[k - 1] != MINUS) ==> InSpace(Scan(s, idx), k)
    decreases |s| + 1 - idx
  {
    var j := SpaceEnd(s, idx);
    if k < j {
      SpaceRunCovered(s, idx, k);
    } else if k < Token(s, j).0 {
      TokenPartCovered(s, idx, k);
    } else {
      var next := Token(s, j).0;
      ScanCovers(s, next, k);
      RestCovered(s, idx, k);
    }
  }

  /** A byte of the token a round reads is covered as that token covers it. */
  lemma TokenPartCovered(s: seq<u8>, idx: nat, k: nat)
    requires idx <= k < |s| && SpaceEnd(s, idx) <= k < Token(s, SpaceEnd(s, idx)).0
    ensures IsNonzeroDigit(s[k]) ==> InNumber(Scan(s, idx), k)
    ensures s[k] == SPACE ==> k > idx && s[k - 1] == MINUS
  {
    var j := SpaceEnd(s, idx);
    TokenCovers(s, j, k);
    TokenInScan(s, idx, k);
  }

  /** A byte covered by the token a round reads is covered by the scan. */
  lemma TokenInScan(s: seq<u8>, idx: nat, k: nat)
    requires idx < |s| && SpaceEnd(s, idx) < |s|
    ensures InNumber(Token(s, SpaceEnd(s, idx)).1, k) ==> InNumber(Scan(s, idx), k)
  {
    var j := SpaceEnd(s, idx);
    var r := Token(s, j);
    var spaces := if j > idx then [Space(idx, j - idx)] else [];
    ScanStep(s, idx, j, r.0, r.1);
    CoveredWithin(spaces, r.1, Scan(s, r.0), k);
  }

  /** A byte covered by the scan after a round is covered by the scan with it. */
  lemma RestCovered(s: seq<u8>, idx: nat, k: nat)
    requires idx < |s| && SpaceEnd(s, idx) < |s|
    ensures InNumber(Scan(s, Token(s, SpaceEnd(s, idx)).0), k) ==> InNumber(Scan(s, idx), k)
    ensures InSpace(Scan(s, Token(s, SpaceEnd(s, idx)).0), k) ==> InSpace(Scan(s, idx), k)
  {
    var j := SpaceEnd(s, idx);
    var r := Token(s, j);
    var spaces := if j > idx then [Space(idx, j - idx)] else [];
    ScanStep(s, idx, j, r.0, r.1);
    CoveredWithin(spaces, r.1, Scan(s, r.0), k);
  }

  /** A space of the run a round starts with lies in that round's space block. */
  lemma SpaceRunCovered(s: seq<u8>, idx: nat, k: nat)
    requires idx <= k < |s| && k < SpaceEnd(s, idx)
    ensures s[k] == SPACE && InSpace(Scan(s, idx), k)
  {
    var j := SpaceEnd(s, idx);
    var block := Space(idx, j - idx);
    var rest := if j >= |s| then [] else Token(s, j).1 + Scan(s, Token(s, j).0);
    assert Scan(s, idx) == [block] + rest + [];
    assert InSpace([block], k) by {
      assert [block][0] == block;
    }
    CoveredWithin([block], rest, [], k);
  }

  /** A position covered by one part is covered by the whole. */
  lemma CoveredWithin(a: seq<Block>, b: seq<Block>, c: seq<Block>, k: nat)
    ensures InNumber(a, k) || InNumber(b, k) || InNumber(c, k) ==> InNumber(a + b + c, k)
    ensures InSpace(a, k) || InSpace(b, k) || InSpace(c, k) ==> InSpace(a + b + c, k)
  {
    var all := a + b + c;
    if InNumber(a, k) {
      var i :| 0 <= i < |a| && a[i].Numerical? && a[i].start <= k < a[i].start + a[i].len;
      assert all[i] == a[i];
    }
    if InNumber(b, k) {
      var i :| 0 <= i < |b| && b[i].Numerical? && b[i].start <= k < b[i].start + b[i].len;
      assert all[|a| + i] == b[i];
    }
    if InNumber(c, k) {
      var i :| 0 <= i < |c| && c[i].Numerical? && c[i].start <= k < c[i].start + c[i].len;
      assert all[|a| + |b| + i] == c[i];
    }
    if InSpace(a, k) {
      var i :| 0 <= i < |a| && a[i].Space? && a[i].start <= k < a[i].start + a[i].len;
      assert all[i] == a[i];
    }
    if InSpace(b, k) {
      var i :| 0 <= i < |b| && b[i].Space? && b[i].start <= k < b[i].start + b[i].len;
      assert all[|a| + i] == b[i];
    }
    if InSpace(c, k) {
      var i :| 0 <= i < |c| && c[i].Space? && c[i].start <= k < c[i].start + c[i].len;
      assert all[|a| + |b| + i] == c[i];
    }
  }

  /**
   * What one token takes from the text: each digit '1'-'9' it consumes lies
   * in the block it pushes, and the only space it consumes is the byte
   * after a leading '-' that no digit follows.
   */
  lemma TokenCovers(s: seq<u8>, start: nat, k: nat)
    requires start <= k < |s| && s[start] != SPACE && k < Token(s, start).0
    ensures IsNonzeroDigit(s[k]) ==> InNumber(Token(s, start).1, k)
    ensures s[k] == SPACE ==> k == start + 1 && s[start] == MINUS
  {
    var negative := s[start] == MINUS;
    var i := if negative then start + 1 else start;
    if i < |s| && s[i] == ZERO {
      assert s[i .. i + 1][0] == s[i];
      FractionCovers(s, start, negative, i + 1, 0, k);
    } else {
      DigitsCover(s, start, k);
    }
  }

  /** `TokenCovers` for a token that does not start with '0' after its sign. */
  lemma DigitsCover(s: seq<u8>, start: nat, k: nat)
    requires start <= k < |s| && s[start] != SPACE && k < Token(s, start).0
    requires var i := if s[start] == MINUS then start + 1 else start; i >= |s| || s[i] != ZERO
    ensures IsNonzeroDigit(s[k]) ==> InNumber(Token(s, start).1, k)
    ensures s[k] == SPACE ==> k == start + 1 && s[start] == MINUS
  {
    var negative := s[start] == MINUS;
    var i := if negative then start + 1 else start;
    DigitRunMeaning(s, i, 0);
    var (integerEnd, base) := DigitRun(s, i, 0);
    if integerEnd != i {
      assert s[i .. integerEnd][0] == s[i];
      DigitRunGrows(s, i + 1, s[i] - ZERO);
      FractionCovers(s, start, negative, integerEnd, base, k);
    }
  }

  /** A digit loop never lowers the value it started with. */
  lemma {:induction false} DigitRunGrows(s: seq<u8>, j: nat, acc: nat)
    requires j <= |s|
    ensures DigitRun(s, j, acc).1 >= acc
    decreases |s| - j
  {
    if j < |s| && IsDigit(s[j]) && acc * 10 + (s[j] - ZERO) <= MAX {
      DigitRunGrows(s, j + 1, acc * 10 + (s[j] - ZERO));
    }
  }

  /**
   * `TokenCovers` after the integer digits: the bytes up to where the scan
   * goes on are the sign, the digits, a '.' and the fraction digits, and
   * the block pushed spans every digit '1'-'9' among them.
   */
  lemma FractionCovers(s: seq<u8>, start: nat, negative: bool, integerEnd: nat, base: nat, k: nat)
    requires start < integerEnd <= |s| && s[start] != SPACE
    requires negative == (s[start] == MINUS)
    requires start + (if negative then 1 else 0) < integerEnd
    requires AllDigits(s[start + (if negative then 1 else 0) .. integerEnd]) && base <= MAX
    requires base == 0 ==> integerEnd == start + (if negative then 1 else 0) + 1 && s[integerEnd - 1] == ZERO
    requires start <= k < |s| && k < Fraction(s, start, negative, integerEnd, base).0
    ensures IsNonzeroDigit(s[k]) ==> InNumber(Fraction(s, start, negative, integerEnd, base).1, k)
    ensures s[k] != SPACE
  {
    var sign := if negative then 1 else 0;
    var r := Fraction(s, start, negative, integerEnd, base);
    if k < integerEnd {
      if k >= start + sign {
        assert s[k] == s[start + sign .. integerEnd][k - start - sign];
      }
      if IsNonzeroDigit(s[k]) && integerEnd < |s| && s[integerEnd] == DOT {
        DigitRunGrows(s, integerEnd + 1, base);
      }
      if IsNonzeroDigit(s[k]) {
        assert r.1[0].Numerical? && r.1[0].start <= k < r.1[0].start + r.1[0].len;
      }
    } else if k > integerEnd {
      DigitRunMeaning(s, integerEnd + 1, base);
      var (fracEnd, v) := DigitRun(s, integerEnd + 1, base);
      assert s[k] == s[integerEnd + 1 .. fracEnd][k - integerEnd - 1];
      assert r.1[0].Numerical? && r.1[0].start <= k < r.1[0].start + r.1[0].len;
    }
  }
}
