/**
 * Machine words as bounded naturals and the bit-level facts every sort in
 * the model relies on.  A shift `x >> k` is `Shr(x, k)`, halving `k` times;
 * a mask `& 1` is `% 2` and a mask `& 7` is `% 8`; `|` and `^` are defined
 * bit by bit.
 */
module Bits {

  /** 2^64: one more than the largest 64-bit word. */
  const WORD: nat := 0x1_0000_0000_0000_0000

  /** A 64-bit unsigned word (`uint64_t`). */
  type Word = x: nat | x < 0x1_0000_0000_0000_0000

  function Pow2(k: nat): (r: nat)
    ensures r >= 1
  {
    if k == 0 then 1 else 2 * Pow2(k - 1)
  }

  lemma {:induction false} Pow2Add(a: nat, b: nat)
    ensures Pow2(a + b) == Pow2(a) * Pow2(b)
    decreases a
  {
    if a > 0 {
      Pow2Add(a - 1, b);
      assert Pow2(a + b) == 2 * Pow2(a - 1 + b);
      MulAssoc2(Pow2(a - 1), Pow2(b));
    }
  }

  /** `2 * (a * b) == (2 * a) * b`, kept apart so callers see no product rules. */
  lemma MulAssoc2(a: nat, b: nat)
    ensures 2 * (a * b) == (2 * a) * b
  {
  }

  lemma {:induction false} Pow2Mono(a: nat, b: nat)
    requires a <= b
    ensures Pow2(a) <= Pow2(b)
    decreases b
  {
    if a < b {
      Pow2Mono(a, b - 1);
    }
  }

  lemma Pow2Word()
    ensures Pow2(64) == WORD
  {
    Pow2Byte();
    Pow2Double(8, 256);
    Pow2Double(16, 65536);
    Pow2Double(32, 0x1_0000_0000);
  }

  lemma Pow2Byte()
    ensures Pow2(8) == 256
  {
    assert Pow2(4) == 16;
  }

  /** From `2^k == v` to `2^(2k) == v * v`. */
  lemma Pow2Double(k: nat, v: nat)
    requires Pow2(k) == v
    ensures Pow2(k + k) == v * v
  {
    Pow2Add(k, k);
  }

  /**
   * `x * 2^n` as `n` doublings; keeps multiplication out of definitions that
   * are unfolded in many proofs.
   */
  function Scale(x: nat, n: nat): nat {
    if n == 0 then x else 2 * Scale(x, n - 1)
  }

  lemma {:induction false} ScaleMul(x: nat, n: nat)
    ensures Scale(x, n) == x * Pow2(n)
    decreases n
  {
    if n > 0 {
      ScaleMul(x, n - 1);
      MulAssoc2(Pow2(n - 1), x);
    }
  }

  lemma MulSign(t: int, d: int)
    requires d >= 0
    ensures t >= 1 ==> t * d >= d
    ensures t <= -1 ==> t * d <= -d
  {
  }

  // ---------------------------------------------------------------------
  // Shifts and single bits
  // ---------------------------------------------------------------------

  /** `x >> k` for an unbounded natural: `k` halvings. */
  function Shr(x: nat, k: nat): nat {
    if k == 0 then x else Shr(x, k - 1) / 2
  }

  /** Bit `k` of `x`: `(x >> k) & 1`. */
  function Bit(x: nat, k: nat): nat {
    Shr(x, k) % 2
  }

  lemma {:induction false} ShrShr(x: nat, a: nat, b: nat)
    ensures Shr(Shr(x, a), b) == Shr(x, a + b)
    decreases b
  {
    if b > 0 {
      ShrShr(x, a, b - 1);
    }
  }

  /** Equal numbers have equal shifts and bits (stated apart to keep callers cheap). */
  lemma ShrCongr(x: nat, y: nat, k: nat)
    requires x == y
    ensures Shr(x, k) == Shr(y, k) && Bit(x, k) == Bit(y, k)
  {
  }

  /** Equal shifts have equal low bits. */
  lemma BitOfShr(x: nat, k: nat, y: nat, j: nat)
    requires Shr(x, k) == Shr(y, j)
    ensures Bit(x, k) == Bit(y, j)
  {
  }

  /** Shifting by `k + 1` is halving first, then shifting by `k`. */
  lemma ShrHalf(x: nat, k: nat)
    ensures Shr(x, k + 1) == Shr(x / 2, k)
  {
    ShrShr(x, 1, k);
  }

  /** A number below `2^(k + m)` shifted by `k` is below `2^m`. */
  lemma {:induction false} ShrBound(x: nat, k: nat, m: nat)
    requires x < Pow2(k + m)
    ensures Shr(x, k) < Pow2(m)
    decreases k
  {
    if k > 0 {
      ShrBound(x, k - 1, m + 1);
    }
  }

  lemma ShrZero(x: nat, k: nat)
    requires x < Pow2(k)
    ensures Shr(x, k) == 0 && Bit(x, k) == 0
  {
    ShrBound(x, k, 0);
  }

  lemma {:induction false} ShrMono(x: nat, y: nat, k: nat)
    requires x <= y
    ensures Shr(x, k) <= Shr(y, k)
    decreases k
  {
    if k > 0 {
      ShrMono(x, y, k - 1);
    }
  }

  /** Dropping one more bit: the shifted value is twice the next one plus the bit. */
  lemma ShrStep(x: nat, k: nat)
    ensures Shr(x, k) == 2 * Shr(x, k + 1) + Bit(x, k)
  {
  }

  /** Bit `k + 1` of `x` is bit `k` of `x / 2`. */
  lemma BitHalf(x: nat, k: nat)
    ensures Bit(x, k + 1) == Bit(x / 2, k)
    ensures Bit(x, 0) == x % 2
  {
    ShrHalf(x, k);
  }

  /** Shifting a two-part number `hi * 2^m + lo` (with `lo < 2^m`) at or above `m`. */
  lemma {:induction false} ShrSplitHigh(hi: nat, lo: nat, m: nat, p: nat)
    requires lo < Pow2(m) && p >= m
    ensures Shr(hi * Pow2(m) + lo, p) == Shr(hi, p - m)
    decreases m
  {
    if m > 0 {
      var c := hi * Pow2(m - 1);
      assert hi * Pow2(m) == 2 * c by {
        MulAssoc2(hi, Pow2(m - 1));
      }
      assert (hi * Pow2(m) + lo) / 2 == c + lo / 2;
      ShrHalf(hi * Pow2(m) + lo, p - 1);
      ShrSplitHigh(hi, lo / 2, m - 1, p - 1);
    }
  }

  /** A bit of `v = hi * 2^m + lo` (with `lo < 2^m`) below `m` lives in `lo`. */
  lemma BitOfLow(v: nat, hi: nat, lo: nat, m: nat, p: nat)
    requires v == hi * Pow2(m) + lo && lo < Pow2(m) && p < m
    ensures Bit(v, p) == Bit(lo, p)
  {
    BitSplitLow(hi, lo, m, p);
  }

  /** A bit of `v = hi * 2^m + lo` (with `lo < 2^m`) at or above `m` lives in `hi`. */
  lemma BitOfHigh(v: nat, hi: nat, lo: nat, m: nat, p: nat)
    requires v == hi * Pow2(m) + lo && lo < Pow2(m) && m <= p
    ensures Bit(v, p) == Bit(hi, p - m)
  {
    ShrSplitHigh(hi, lo, m, p);
    BitOfShr(v, p, hi, p - m);
  }

  lemma {:induction false} BitSplitLow(hi: nat, lo: nat, m: nat, p: nat)
    requires lo < Pow2(m) && p < m
    ensures Bit(hi * Pow2(m) + lo, p) == Bit(lo, p)
    decreases p
  {
    var c := hi * Pow2(m - 1);
    assert hi * Pow2(m) == 2 * c by {
      MulAssoc2(hi, Pow2(m - 1));
    }
    assert (hi * Pow2(m) + lo) / 2 == c + lo / 2;
    if p > 0 {
      BitHalf(hi * Pow2(m) + lo, p - 1);
      BitHalf(lo, p - 1);
      BitSplitLow(hi, lo / 2, m - 1, p - 1);
    }
  }

  /** Two numbers below `2^n` that agree on bits `m..n-1` have the same value above `m`. */
  lemma {:induction false} BitsAgree(x: nat, y: nat, m: nat, n: nat)
    requires x < Pow2(n) && y < Pow2(n) && m <= n
    requires forall k :: m <= k < n ==> Bit(x, k) == Bit(y, k)
    ensures Shr(x, m) == Shr(y, m)
    decreases n - m
  {
    if m == n {
      ShrZero(x, n);
      ShrZero(y, n);
    } else {
      BitsAgree(x, y, m + 1, n);
      ShrStep(x, m);
      ShrStep(y, m);
    }
  }

  /** The ordering of two numbers is decided by their values above any bit. */
  lemma ShrLess(x: nat, y: nat, m: nat)
    requires Shr(x, m) < Shr(y, m)
    ensures x < y
  {
    if y <= x {
      ShrMono(y, x, m);
    }
  }

  /** `(x >> s) & 7` is the three bits `s`, `s+1`, `s+2`. */
  lemma DigitBits(x: nat, s: nat)
    ensures Shr(x, s) % 8 == Bit(x, s) + 2 * Bit(x, s + 1) + 4 * Bit(x, s + 2)
  {
    ShrStep(x, s);
    ShrStep(x, s + 1);
    ShrStep(x, s + 2);
  }

  /** Dropping three bits: the value above `s` is eight times the value above `s+3` plus the digit. */
  lemma ShrDigit(x: nat, s: nat)
    ensures Shr(x, s) == 8 * Shr(x, s + 3) + Shr(x, s) % 8
  {
    ShrStep(x, s);
    ShrStep(x, s + 1);
    ShrStep(x, s + 2);
  }

  // ---------------------------------------------------------------------
  // Highest set bit
  // ---------------------------------------------------------------------

  /**
   * Position of the highest set bit of `x`, or -1 when `x` is zero
   * (the portable `p = 0; while (x >>= 1) p++;` loop).
   */
  function MsbPos(x: nat): (p: int)
    ensures p == -1 <==> x == 0
    ensures x > 0 ==> 0 <= p && Pow2(p) <= x < Pow2(p + 1)
  {
    if x == 0 then -1 else 1 + MsbPos(x / 2)
  }

  /** `MsbPos` is the one `m` with `2^m <= x < 2^(m + 1)`. */
  lemma MsbPosUnique(x: nat, m: nat)
    requires Pow2(m) <= x < Pow2(m + 1)
    ensures MsbPos(x) == m
  {
    var p := MsbPos(x);
    if p < m {
      Pow2Mono(p + 1, m);
    } else if p > m {
      Pow2Mono(m + 1, p);
    }
  }

  /** A word's highest set bit is below 64. */
  lemma MsbPosWord(x: Word)
    ensures MsbPos(x) < 64
  {
    Pow2Word();
    if x > 0 && MsbPos(x) >= 64 {
      Pow2Mono(64, MsbPos(x));
    }
  }

  /** The highest set bit of `x` is set. */
  lemma {:induction false} MsbPosSet(x: nat)
    requires x > 0
    ensures Bit(x, MsbPos(x)) == 1
    decreases x
  {
    if x > 1 {
      MsbPosSet(x / 2);
      BitHalf(x, MsbPos(x / 2));
    }
  }

  /** Every bit above the highest set bit is clear. */
  lemma MsbPosAbove(x: nat, k: nat)
    requires x > 0 && k > MsbPos(x)
    ensures Bit(x, k) == 0
  {
    Pow2Mono(MsbPos(x) + 1, k);
    ShrZero(x, k);
  }

  // ---------------------------------------------------------------------
  // Bitwise OR and XOR on naturals
  // ---------------------------------------------------------------------

  function Or(x: nat, y: nat): nat
    decreases x + y
  {
    if x == 0 && y == 0 then 0
    else 2 * Or(x / 2, y / 2) + (if x % 2 == 1 || y % 2 == 1 then 1 else 0)
  }

  function Xor(x: nat, y: nat): nat
    decreases x + y
  {
    if x == 0 && y == 0 then 0
    else 2 * Xor(x / 2, y / 2) + (if x % 2 != y % 2 then 1 else 0)
  }

  lemma {:induction false} OrBit(x: nat, y: nat, k: nat)
    ensures Bit(Or(x, y), k) == (if Bit(x, k) == 1 || Bit(y, k) == 1 then 1 else 0)
    decreases k
  {
    if x == 0 && y == 0 {
      ShrZero(0, k);
    } else if k > 0 {
      OrBit(x / 2, y / 2, k - 1);
      BitHalf(x, k - 1);
      BitHalf(y, k - 1);
      BitHalf(Or(x, y), k - 1);
    }
  }

  lemma {:induction false} XorBit(x: nat, y: nat, k: nat)
    ensures Bit(Xor(x, y), k) == (if Bit(x, k) != Bit(y, k) then 1 else 0)
    decreases k
  {
    if x == 0 && y == 0 {
      ShrZero(0, k);
    } else if k > 0 {
      XorBit(x / 2, y / 2, k - 1);
      BitHalf(x, k - 1);
      BitHalf(y, k - 1);
      BitHalf(Xor(x, y), k - 1);
    }
  }

  lemma {:induction false} OrBound(x: nat, y: nat, n: nat)
    requires x < Pow2(n) && y < Pow2(n)
    ensures Or(x, y) < Pow2(n) && Xor(x, y) < Pow2(n)
    decreases n
  {
    if n > 0 && !(x == 0 && y == 0) {
      OrBound(x / 2, y / 2, n - 1);
    }
  }

  /** Or and Xor of words are words. */
  lemma OrWord(x: Word, y: Word)
    ensures Or(x, y) < WORD && Xor(x, y) < WORD
  {
    Pow2Word();
    OrBound(x, y, 64);
  }

  /** `x | y` on words, as a word. */
  function WordOr(x: Word, y: Word): Word {
    OrWord(x, y);
    Or(x, y)
  }

  /** `x ^ y` on words, as a word. */
  function WordXor(x: Word, y: Word): Word {
    OrWord(x, y);
    Xor(x, y)
  }

  /** `x | y` is zero exactly when both are. */
  lemma {:induction false} OrZero(x: nat, y: nat)
    ensures Or(x, y) == 0 <==> x == 0 && y == 0
    decreases x + y
  {
    if !(x == 0 && y == 0) && x % 2 == 0 && y % 2 == 0 {
      OrZero(x / 2, y / 2);
    }
  }

  /** `x ^ y` is zero exactly when `x == y`. */
  lemma {:induction false} XorZero(x: nat, y: nat)
    ensures Xor(x, y) == 0 <==> x == y
    decreases x + y
  {
    if !(x == 0 && y == 0) {
      XorZero(x / 2, y / 2);
    }
  }

  /** The top bit of a word is set exactly when it is the word's highest set bit. */
  lemma TopBit(y: Word)
    ensures Bit(y, 63) == 1 <==> MsbPos(y) == 63
  {
    MsbPosWord(y);
    if y == 0 {
      ShrZero(0, 63);
    } else if MsbPos(y) == 63 {
      MsbPosSet(y);
    } else {
      MsbPosAbove(y, 63);
    }
  }

  /** A number below `2^n` with no bit set below `n` is zero. */
  lemma NoBitsZero(x: nat, n: nat)
    requires x < Pow2(n)
    requires forall k :: 0 <= k < n ==> Bit(x, k) == 0
    ensures x == 0
  {
    forall k | 0 <= k < n
      ensures Bit(x, k) == Bit(0, k)
    {
      ShrZero(0, k);
    }
    BitsAgree(x, 0, 0, n);
  }
}
