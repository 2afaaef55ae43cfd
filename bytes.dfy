/**
 * Byte-level vocabulary shared by every codec of the compressor: bytes and
 * 64-bit magnitudes as bounded integers, powers of two, and a bitwise OR on
 * naturals.  Masks with a power-of-two shape are written with `%` and `/`
 * (`x & (2^k - 1)` is `x % 2^k`, `x >> k` is `x / 2^k`); `|` is modelled by
 * `Or` so that "these bits never collide" becomes a lemma (`OrDisjoint`).
 */
module Bytes {

  /** An unsigned 8-bit value (Rust `u8`). */
  type u8 = x: int | 0 <= x < 0x100

  /** An unsigned 64-bit value (Rust `u64`). */
  type u64 = x: int | 0 <= x < 0x1_0000_0000_0000_0000

  /** 2^64: arithmetic on `u64` keeps its result modulo this. */
  const U64_MODULUS: nat := 0x1_0000_0000_0000_0000

  datatype Option<+T> = None | Some(value: T)

  /** The ASCII space byte `b' '`. */
  const SPACE: u8 := 0x20

  function Pow2(k: nat): (p: nat)
    ensures p >= 1
  {
    if k == 0 then 1 else 2 * Pow2(k - 1)
  }

  /** Bit `k` of `x` (`x & (1 << k) != 0`). */
  predicate Bit(x: nat, k: nat)
  {
    (x / Pow2(k)) % 2 == 1
  }

  /** Bitwise OR of two naturals, one binary digit at a time. */
  function Or(a: nat, b: nat): nat
    decreases a + b
  {
    if a == 0 then b
    else if b == 0 then a
    else 2 * Or(a / 2, b / 2) + (if a % 2 == 1 || b % 2 == 1 then 1 else 0)
  }

  /** `n` copies of the byte `b`. */
  function Repeat(b: u8, n: nat): (s: seq<u8>)
    ensures |s| == n
    ensures forall i :: 0 <= i < n ==> s[i] == b
  {
    if n == 0 then [] else Repeat(b, n - 1) + [b]
  }

  /** `n` space bytes. */
  function Spaces(n: nat): (s: seq<u8>)
    ensures |s| == n
    ensures forall i :: 0 <= i < n ==> s[i] == SPACE
  {
    Repeat(SPACE, n)
  }

  /** The powers of two that the byte layouts use. */
  lemma Pow2Small()
    ensures Pow2(1) == 2 && Pow2(2) == 4 && Pow2(3) == 8 && Pow2(4) == 0x10
    ensures Pow2(5) == 0x20 && Pow2(6) == 0x40 && Pow2(7) == 0x80 && Pow2(8) == 0x100
  {
    assert Pow2(0) == 1;
  }

  lemma Pow2Of64()
    ensures Pow2(64) == U64_MODULUS
  {
    Pow2Small();
    Pow2Add(8, 8);
    Pow2Add(16, 16);
    Pow2Add(32, 32);
  }

  lemma Pow2Add(a: nat, b: nat)
    ensures Pow2(a + b) == Pow2(a) * Pow2(b)
  {
    if a > 0 {
      Pow2Add(a - 1, b);
    }
  }

  /**
   * ORing a value below 2^k with a multiple of 2^k is plain addition: the two
   * operands occupy disjoint bit ranges, so neither disturbs the other.
   */
  lemma {:induction false} OrDisjoint(a: nat, t: nat, k: nat)
    requires a < Pow2(k)
    ensures Or(a, t * Pow2(k)) == a + t * Pow2(k)
  {
    if k == 0 || a == 0 || t == 0 {
      // Or(0, b) == b and Or(a, 0) == a by definition
    } else {
      var p := Pow2(k - 1);
      var c, b := t * p, t * Pow2(k);
      assert Pow2(k) == 2 * p;
      assert b == 2 * c;
      assert b / 2 == c && b % 2 == 0;
      OrDisjoint(a / 2, t, k - 1);
      assert Or(a, b) == 2 * Or(a / 2, c) + a % 2;
    }
  }

  lemma DivMod(x: int, m: int)
    requires m > 0
    ensures x == (x / m) * m + x % m && 0 <= x % m < m
  {
  }

  /**
   * `x == q * m + s` with `0 <= s < m` fixes the quotient and the remainder.
   */
  lemma DivModUnique(x: int, m: int, q: int, s: int)
    requires m > 0 && 0 <= s < m && x == q * m + s
    ensures x / m == q && x % m == s
  {
    var d, e := x / m, x % m;
    assert (q - d) * m == e - s;
    if q - d >= 1 {
      assert false;
    } else if q - d <= -1 {
      assert false;
    }
  }

  /**
   * `low | high`, where `low` fits in the `k` low bits and `high` leaves
   * them clear: the two fields do not overlap, so the OR is their sum.
   */
  method BitOr(low: nat, high: nat, k: nat) returns (r: nat)
    requires low < Pow2(k) && high % Pow2(k) == 0
    ensures r == low + high
  {
    DivModUnique(high, Pow2(k), high / Pow2(k), 0);
    OrDisjoint(low, high / Pow2(k), k);
    r := Or(low, high);
  }

  /** Halving and then dividing by `m` is dividing by `2 * m`. */
  lemma HalfQuotient(a: nat, m: nat)
    requires m >= 1
    ensures (a / 2) / m == a / (2 * m)
  {
    var q, r := a / (2 * m), a % (2 * m);
    DivModUnique(a, 2, m * q + r / 2, r % 2);
    DivModUnique(a / 2, m, q, r / 2);
  }

  /**
   * ORing in the single bit `2^k` leaves `a` alone when that bit is already
   * set and adds it otherwise.
   */
  lemma {:induction false} OrPow2(a: nat, k: nat)
    ensures Or(a, Pow2(k)) == if Bit(a, k) then a else a + Pow2(k)
  {
    if a == 0 {
      assert 0 / Pow2(k) == 0;
    } else if k == 0 {
      assert Or(a, 1) == 2 * Or(a / 2, 0) + 1;
    } else {
      var p := Pow2(k - 1);
      assert Pow2(k) / 2 == p && Pow2(k) % 2 == 0;
      OrPow2(a / 2, k - 1);
      HalfQuotient(a, p);
      assert Or(a, Pow2(k)) == 2 * Or(a / 2, p) + a % 2;
    }
  }

  lemma RepeatAppend(b: u8, m: nat, n: nat)
    ensures Repeat(b, m) + Repeat(b, n) == Repeat(b, m + n)
  {
    assert Repeat(b, m) + Repeat(b, n) == Repeat(b, m + n);
  }
}
